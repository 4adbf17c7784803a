# offline-chat: the moderation and presence core, in Dafny

This project models the moderation and presence core of *offline-chat*, a chat application: a Node/Express server with Socket.IO and SQLite, and a React client. It covers:

- **The socket server.** The presence map `onlineUsers`, the in-flight set `processingMessages`, the per-connection `userId`/`isAdmin` fields, and the six socket handlers: identify, public send, private send, approve, reject and disconnect. Every emit appends an event `(target, name, payload)` to a log.
- **The stores.** The public-message table with its approval flag, and the private-message table with its read flag. SQL statements are functions on sequences of rows; the tables are classes whose methods assign those functions' results.
- **The REST handlers.** The decision logic of the message, private-message and user controllers, and the `protect`/`admin` middleware.
- **The `create-admin` script.** It promotes an existing user or creates a new one.
- **The client pages.** The list reducers and handlers of the public chat, the admin dashboard and the private chat, and the registration form's checks.

JavaScript values are modelled by `Js.JsVal`: `undefined`, `null`, booleans, integral numbers, `NaN`, strings and objects. `===` is `Js.StrictEq`, under which `NaN` never equals anything and `undefined === undefined`. A parameter bound to an INTEGER column is compared as SQLite does (`Sql.RowKey`): a canonical decimal string stands for its number.

**Awaits.** Each handler that awaits is split at its awaits.
- A step that performs a store call changes the table there and returns what the await will produce.
- The continuation is a separate method that takes that value, so other steps can run in between.
- An awaited read of the user directory, and the reply to an HTTP request a client page sends, are parameters of the continuation.
- `finally` is the tail of whichever step returns.

Interleavings are written as explicit sequences of calls: `Socket.Server.DuplicateApproveInFlight` does this for the in-flight guard, and `Moderation` for the dashboard's two paths (socket and REST).

**Modules:**
- `Js`, `Seqs`, `JsMap`: JavaScript values and operators, sequence helpers, and an insertion-ordered `Map`.
- `Sql`, `Users`, `Messages`, `PrivateMessages`: parameter binding and the three tables.
- `Http`, `Auth`, `MessageController`, `PrivateMessageController`, `UserController`: the REST layer.
- `Socket`: the socket server.
- `CreateAdmin`: the script.
- `ClientMessages`, `Chat`, `AdminDashboard`, `PrivateChat`, `Register`, `Moderation`: the client and its interplay with the server.

## Model

| member | source | states |
|---|---|---|
| Socket.Server.constructor | server/socket.js:5-12 | The presence map and the in-flight set start empty; nothing has been emitted. |
| Socket.Connection.constructor | server/socket.js:28-29 | A connection starts with no `userId` and no admin flag. |
| JsMap.Set | server/socket.js:32-37 | `Map.set` overwrites the value; a key already present keeps its place, and a new key goes last. |
| JsMap.SetValues | server/socket.js:32-44 | After `set`, `values()` is the old list with that entry replaced in place, or the old list with the new value appended. |
| JsMap.Delete | server/socket.js:198 | `Map.delete` removes the key and its value and keeps the order of the others. |
| Socket.OnlineList | server/socket.js:40-44 | The `online_users` list has one `{id, username, isAdmin}` per map entry, in map order. |
| Socket.Server.NotifyAdmins | server/socket.js:67-71 | The loop over `onlineUsers` appends the admin fan-out (`AdminNotices`) to the log. |
| Socket.AdminNoticesReach | server/socket.js:67-71 | The fan-out reaches a socket exactly when an admin entry has that non-empty socket id. Every event carries the given name and payload. |
| Socket.Server.UserConnected | server/socket.js:18-55 | A falsy id, a failed lookup or a missing user changes nothing. Otherwise: `userId` is the id string; `isAdmin` is `isAdmin === 1`; exactly that map entry is inserted or overwritten (last connect wins); `online_users` with the new list goes to everyone. |
| Socket.Server.SendPublicBegin | server/socket.js:58-64 | `Message.create` is called with the argument's sender and content, unchecked. A `null` argument throws before the call: nothing is written, and the `catch` runs as for a rejected create. |
| Socket.Server.SendPublicResume | server/socket.js:66-78 | `pending_approval` goes to every admin entry, then `message_sent_for_approval` with the new id goes to the sender. A store failure gives only `message_error`. A `null` message still reaches the admins, then ends in `message_error`. |
| Socket.Server.SendPrivateBegin | server/socket.js:82-97 | A `null` argument, or a failed lookup, gives 'Error sending private message' and writes nothing. A missing sender or recipient gives 'Invalid sender or recipient' and writes nothing. Otherwise `PrivateMessage.create` runs, with no check that sender and recipient differ. |
| Socket.Server.SendPrivateResume | server/socket.js:99-119 | `receive_private_message` goes to `io.to(entry)` only when the recipient's key is in the map. `private_message_sent` always goes to the sender. A null result or a failure gives `message_error`. |
| Socket.PrivateNeverDelivered | server/socket.js:109-111 | `io.to` is given the presence object, not its socket id, so no socket ever receives `receive_private_message`. |
| Socket.Server.ApproveBegin | server/socket.js:123-136 | A socket without `userId` or `isAdmin` gets the Unauthorized `message_error` and the table is not touched. An id already in flight returns silently. Both early returns still delete the id in `finally`. Otherwise the id is marked and `Message.approve` runs with the socket's user-id string. |
| Socket.Server.ApproveResume | server/socket.js:136-155 | On success, `approved_message` goes to everyone, then `message_approved_admin_notification` goes to the admin entries. A null result gives `message_error` to the acting socket alone. The id is absent from the in-flight set afterwards. |
| Socket.Server.RejectBegin | server/socket.js:159-172 | The same guard as approve, then `Message.reject`. |
| Socket.Server.RejectResume | server/socket.js:172-192 | A deletion is announced only to the admin entries, as `message_rejected_admin_notification`. False gives `message_error`. The id is absent from the in-flight set afterwards. |
| Socket.Server.DuplicateApproveInFlight | server/socket.js:129-155 | A duplicate call removes the marker of a call still in flight, so a third call passes the guard and reaches the table too. |
| Socket.Server.Disconnect | server/socket.js:196-213 | An identified socket deletes the entry under its user id, whichever socket that entry now names, and `online_users` is broadcast. An unidentified socket changes nothing. |
| Socket.NoMessageRejected | server/socket.js:139-189 | The server never emits an event named `message_rejected`. |
| Messages.FormatRow | server/models/Message.js:5-30 | `sender` becomes `{id, username}`. `approvedBy` becomes `{id, username}` exactly when the column is truthy, and null otherwise. Every other column is kept. |
| Messages.FormatMessage | server/models/Message.js:5-6 | No row gives null; a row gives its formatted form. |
| Messages.FormatAll | server/models/Message.js:70 | `rows.map(_formatMessage)`: one formatted message per row, in order. |
| Messages.FormatKeepsColumns | server/models/Message.js:8-28 | The stored row can be read back from the formatted message; the sender's username is nested. |
| Messages.JoinRow | server/models/Message.js:34-39 | A row joins exactly when its sender is a user (inner JOIN). The approver's name is looked up with a LEFT JOIN. |
| Messages.JoinAll | server/models/Message.js:51-56 | The joined rows are exactly the stored rows whose sender is a user. |
| Messages.FindRow | server/models/Message.js:39 | `WHERE m.id = ?` finds the row with that id, or none. |
| Messages.JoinedById | server/models/Message.js:34-43 | The read-back by id is that row, when it exists and joins. |
| Messages.GetAll | server/models/Message.js:47-72 | At most `limit` messages. |
| Messages.GetAllFilter | server/models/Message.js:60-63 | With `approved` given, every listed message has `approved` equal to `approved ? 1 : 0`. Each comes from a stored row whose sender is a user. |
| Messages.GetAllOrder | server/models/Message.js:65 | Messages are listed newest `createdAt` first. |
| Messages.GetAllComplete | server/models/Message.js:47-72 | When the first page is large enough, no joined row that passes the filter is missed. |
| Messages.CreateStep | server/models/Message.js:75-99 | A NULL sender or content, or a failed INSERT, inserts nothing and fails. Otherwise exactly one row is appended, with the next id, `approved` 0 and no approver. A failed read-back then still fails, with the row stored; the call succeeds exactly when neither statement failed. |
| Messages.CreateValid | server/models/Message.js:80-84 | The insert keeps ids unique and increasing and keeps the flags 0 or 1. |
| Messages.CreateResult | server/models/Message.js:86-96 | The new message is pending with no approver. It is returned formatted, or null exactly when its sender is no user, although the insert happened. |
| Messages.ApproveRows | server/models/Message.js:106-108 | The UPDATE sets `approved`, `approvedBy`, `approvedAt` and `updatedAt` on the row with the id and on no other. |
| Messages.ApproveStep | server/models/Message.js:102-127 | A failed UPDATE writes nothing and fails. An id with no row gives null and writes nothing. Otherwise that row is approved, and the call fails exactly when the read-back fails. |
| Messages.ApproveResult | server/models/Message.js:102-127 | Null when no row has the id, and then nothing is written. Otherwise the row is approved whatever its earlier state. The result is null exactly when the row's sender is no user. |
| Messages.ApproveTwice | server/models/Message.js:107 | Approving an approved row succeeds again, and the later approver overwrites the earlier one. |
| Messages.ApproveOthers | server/models/Message.js:107 | `approve` changes no row other than the one with the id. |
| Messages.RejectStep | server/models/Message.js:129-136 | A failed statement changes nothing and reports the failure. |
| Messages.RejectResult | server/models/Message.js:131-133 | The row is deleted exactly when it exists with `approved = 0`, and the result says whether it was. Approved rows and other ids stay, and the table stays well formed. |
| Messages.RejectFinal | server/models/Message.js:102-136 | After a successful reject, a second reject answers false and an approve answers null. |
| Messages.MessageTable.constructor | server/models/Message.js:3 | The table starts empty, with next id 1. |
| Messages.MessageTable.Create | server/models/Message.js:75-100 | The table becomes what `CreateStep` gives and stays well formed. |
| Messages.MessageTable.Approve | server/models/Message.js:102-127 | The table becomes what `ApproveStep` gives and stays well formed. |
| Messages.MessageTable.Reject | server/models/Message.js:129-136 | The table becomes what `RejectStep` gives and stays well formed. |
| PrivateMessages.JoinRow | server/models/PrivateMessage.js:48-55 | A row joins exactly when its sender and recipient are both users. `sender` and `recipient` become `{id, username}`. |
| PrivateMessages.JoinAll | server/models/PrivateMessage.js:40-42 | The joined messages are exactly those of the rows whose two ends are users. |
| PrivateMessages.NewestFirst | server/models/PrivateMessage.js:44 | `ORDER BY createdAt DESC LIMIT ?` gives at most `limit` messages. |
| PrivateMessages.NewestFirstSorted | server/models/PrivateMessage.js:44 | The listed messages are newest first. |
| PrivateMessages.NewestFirstFrom | server/models/PrivateMessage.js:44 | Every listed message comes from a joined row. |
| PrivateMessages.NewestFirstComplete | server/models/PrivateMessage.js:44 | With a large enough limit, no joined row is cut off. |
| PrivateMessages.GetConversation | server/models/PrivateMessage.js:34-59 | At most `limit` messages. |
| PrivateMessages.ConversationSymmetric | server/models/PrivateMessage.js:43-45 | The conversation of a with b equals the conversation of b with a. |
| PrivateMessages.ConversationExact | server/models/PrivateMessage.js:34-59 | Exactly the joined messages between a and b in either direction, newest first. Within the limit, none is missing. |
| PrivateMessages.GetUserMessages | server/models/PrivateMessage.js:61-86 | At most `limit` messages. |
| PrivateMessages.UserMessagesExact | server/models/PrivateMessage.js:61-86 | Every message is the joined form of a row with u as sender or recipient, with `{id, username}` ends, newest first. Within the limit, every joined row of u's is listed. |
| PrivateMessages.GetUnreadMessagesCount | server/models/PrivateMessage.js:123-134 | `COUNT(*)` never exceeds the number of stored rows. |
| PrivateMessages.UnreadCountExact | server/models/PrivateMessage.js:125-131 | The number of rows with recipient u and `read = 0`; 0 exactly when there are none. |
| PrivateMessages.Partners | server/models/PrivateMessage.js:92-101 | The other participants of u's rows, each once. |
| PrivateMessages.PartnersMembers | server/models/PrivateMessage.js:92-101 | GROUP BY loses no participant and invents none. |
| PrivateMessages.PartnersLength | server/models/PrivateMessage.js:92-101 | There are no more groups than rows. |
| PrivateMessages.LastTimeIsMax | server/models/PrivateMessage.js:98 | `MAX(createdAt)` of a group is the latest `createdAt` of its rows and is reached by one of them. |
| PrivateMessages.Groups | server/models/PrivateMessage.js:103-113 | Each group's row names its participant, who is a user. |
| PrivateMessages.GroupsDistinct | server/models/PrivateMessage.js:101 | No participant has two rows. |
| PrivateMessages.GroupsComplete | server/models/PrivateMessage.js:112-113 | Every participant who is a user has a row. |
| PrivateMessages.GetUserConversations | server/models/PrivateMessage.js:88-121 | At most `limit` rows (default 20). |
| PrivateMessages.UserConversationsShape | server/models/PrivateMessage.js:103-115 | One row per other participant who is a user, none twice, latest `lastMessageTime` first. |
| PrivateMessages.UserConversationsValues | server/models/PrivateMessage.js:104-111 | A row carries the time of the latest shared message and the number of unread messages from that participant to u. |
| PrivateMessages.UserConversationsComplete | server/models/PrivateMessage.js:112-115 | When the limit allows, every partner who is a user has a row. |
| PrivateMessages.CreateStep | server/models/PrivateMessage.js:136-172 | A failed INSERT or a NULL column inserts nothing and fails. Otherwise one unread row is appended with the next id. A failed read-back then still fails, with the row stored. |
| PrivateMessages.CreateResult | server/models/PrivateMessage.js:141-166 | The new row is unread. It is returned with `{id, username}` ends exactly when both ends are users, and as null otherwise, although the insert happened. |
| PrivateMessages.MarkWhere | server/models/PrivateMessage.js:179 | The UPDATE sets `read`, `readAt` and `updatedAt` on exactly the matching rows. |
| PrivateMessages.MarkAsReadStep | server/models/PrivateMessage.js:174-187 | A failure changes nothing. |
| PrivateMessages.MarkAsReadResult | server/models/PrivateMessage.js:179-183 | True exactly when a row has the id, even one already read. Only that row changes. |
| PrivateMessages.MarkAllAsReadStep | server/models/PrivateMessage.js:189-202 | A failure changes nothing. |
| PrivateMessages.MarkAllUnread | server/models/PrivateMessage.js:128-194 | Marking the unread rows from s to r lowers r's unread count by exactly their number. |
| PrivateMessages.MarkAllAsReadResult | server/models/PrivateMessage.js:189-198 | It answers the number k of unread rows from s to r, and afterwards none remains. Other rows are unchanged, r's unread count falls by k, and a second call answers 0. |
| PrivateMessages.PrivateMessageTable.constructor | server/models/PrivateMessage.js:3 | The table starts empty, with next id 1. |
| PrivateMessages.PrivateMessageTable.Create | server/models/PrivateMessage.js:136-172 | The table becomes what `CreateStep` gives and stays well formed. |
| PrivateMessages.PrivateMessageTable.MarkAsRead | server/models/PrivateMessage.js:174-187 | The table becomes what `MarkAsReadStep` gives and stays well formed. |
| PrivateMessages.PrivateMessageTable.MarkAllAsRead | server/models/PrivateMessage.js:189-202 | The table becomes what `MarkAllAsReadStep` gives and stays well formed. |
| Users.FindById | server/models/User.js:5-12 | The row with that id, or none. |
| Users.FindByUsername | server/models/User.js:14-21 | The row with that username, or none. |
| Users.UpdateRoleRows | server/models/User.js:67-79 | Sets `isAdmin` to `isAdmin ? 1 : 0`, and `updatedAt`, on the row with the id only. |
| Users.UpdateRoleFind | server/models/User.js:71-72 | Afterwards the user with the id has the new role and nobody else changes. |
| Users.UserTable.constructor | server/config/db.js:26-35 | An open table with the given well-formed rows. |
| Users.UserTable.UpdateRole | server/models/User.js:67-79 | A failed statement changes nothing and rejects. Otherwise the rows become `UpdateRoleRows` and the result says whether a row has the id. |
| Users.UserTable.Create | server/models/User.js:32-51 | `isAdmin` defaults to 0. A failed statement or a taken username inserts nothing. Otherwise one row is appended with the next id and the hashed password, and the call resolves to `{id, username, isAdmin, createdAt, updatedAt}` without the password. |
| Users.UserTable.Close | create-admin.js:34 | `db.close()` closes the table; the rows stay. |
| Http.ViewOf | server/controllers/userController.js:35-42 | The user without its password, with `isAdmin` true exactly when the column is 1. |
| MessageController.PublicMessagesApproved | server/controllers/messageController.js:6-22 | Only approved messages, at most 100, newest first, with `count` equal to the list length. A failed read answers 500. |
| MessageController.PublicMessagesComplete | server/controllers/messageController.js:8 | While the table holds at most 100 rows, every approved message whose sender is a user is listed. |
| MessageController.GetPublicMessages | server/controllers/messageController.js:6-22 | A failed read answers 500 with the error's message. Otherwise 200 with at most 100 messages and `count` their number. |
| MessageController.GetPendingMessages | server/controllers/messageController.js:27-43 | A failed read answers 500 with the error's message. Otherwise 200 with at most 100 messages and `count` their number. |
| MessageController.PendingMessagesUnapproved | server/controllers/messageController.js:27-43 | Only unapproved messages, with `count` equal to the list length. |
| MessageController.CreateMessage | server/controllers/messageController.js:48-68 | 201 exactly when the INSERT and the read-back succeed and the content is bound; every other answer is 500. A failed INSERT writes nothing. A failed read-back answers 500 with the caller's row already stored. |
| MessageController.CreateMessageSender | server/controllers/messageController.js:48-68 | The sender is always the authenticated user, and the answer is 201 with a pending message. Missing content violates NOT NULL: 500, and no row. |
| MessageController.ApproveMessage | server/controllers/messageController.js:73-96 | A failed UPDATE answers 500 and writes nothing. A missing id answers 404 and writes nothing. A found row is approved by the caller, and the answer is 500 exactly when the read-back fails. Only 200, 404 and 500 are answered. |
| MessageController.ApproveMessageResponse | server/controllers/messageController.js:73-96 | 404 exactly when no row has the id or its sender is no user. Otherwise 200 with the message approved by the caller. There is no guard against a second approval. |
| MessageController.ApproveMessageTwice | server/controllers/messageController.js:76 | A second approval also answers 200, and the second approver is recorded. |
| MessageController.DeleteMessage | server/controllers/messageController.js:101-124 | A failed statement answers 500 and deletes nothing. Otherwise the answer is 200 or 404, and `success` is true exactly for 200. |
| MessageController.DeleteMessageResponse | server/controllers/messageController.js:101-124 | 404 exactly when no pending row has the id, and nothing is deleted. Otherwise that row alone is gone and the answer is 'Message deleted'. |
| PrivateMessageController.GetPrivateMessages | server/controllers/privateMessageController.js:7-40 | A missing other user answers 404 with no read and no write. Otherwise the conversation is read before `markAllAsRead(current, other)`. The answer carries the rows as read, and its `count` is their number. |
| PrivateMessageController.ReadBeforeMark | server/controllers/privateMessageController.js:22-25 | A message the call marks read is still unread in the answer and read in the table afterwards. |
| PrivateMessageController.SendPrivateMessage | server/controllers/privateMessageController.js:45-76 | A failed lookup answers 500, and a missing recipient 404, both with no insert. Otherwise the message is created with `req.user.id` as sender and the answer is 201. A failed INSERT answers 500 with no row; a failed read-back answers 500 with the row stored. |
| PrivateMessageController.GetConversations | server/controllers/privateMessageController.js:122-140 | A failed read answers 500 with the error's message. Otherwise 200 with at most 20 conversations. |
| PrivateMessageController.SendPrivateRow | server/controllers/privateMessageController.js:59-63 | The created row goes from the caller to the recipient's id, unread. |
| PrivateMessageController.FieldsOf | server/controllers/privateMessageController.js:92-97 | The tally sees `sender` and `recipient` as objects, and no `senderUsername` key. |
| PrivateMessageController.TallyStep | server/controllers/privateMessageController.js:92-101 | One `forEach` step keeps the dictionary well formed; a `toString` of null throws. |
| PrivateMessageController.Tally | server/controllers/privateMessageController.js:89-103 | The dictionary after the loop is well formed. |
| PrivateMessageController.TallyThrows | server/controllers/privateMessageController.js:93 | The loop throws exactly when a qualifying message has no sender. |
| PrivateMessageController.TallyCounts | server/controllers/privateMessageController.js:89-103 | Only messages with `read === 0` and `recipient === caller` count. There is one bucket per sender key, holding exactly that sender's qualifying messages. |
| PrivateMessageController.TwoWrites | server/controllers/privateMessageController.js:94-101 | Creating a bucket and then incrementing it equals one write of the incremented bucket. |
| PrivateMessageController.TallyOne | server/controllers/privateMessageController.js:92-101 | The loop body performs `TallyStep`. |
| PrivateMessageController.TallyLoop | server/controllers/privateMessageController.js:90-103 | The `forEach` loop computes `Tally`. |
| PrivateMessageController.TallyOfUserMessages | server/controllers/privateMessageController.js:92 | `getUserMessages` makes `recipient` an object, so the `===` test never holds and the tally is empty. |
| PrivateMessageController.GetUnreadMessages | server/controllers/privateMessageController.js:81-117 | `totalCount` equals `getUnreadMessagesCount(caller)` and `messageCounts` is empty. Each failed read answers 500. |
| PrivateMessageController.ConversationsResponse | server/controllers/privateMessageController.js:122-141 | At most 20 conversations, latest first, one per other participant. |
| UserController.GetUsersListing | server/controllers/userController.js:6-24 | Every user is listed once, in table order, with `count` the number of users. `isAdmin` is true exactly when the column is 1. |
| UserController.GetUsers | server/controllers/userController.js:6-24 | A failed read answers 500 with the error's message. Otherwise 200, with `count` equal to the number of users listed and of users stored. |
| UserController.GetUserById | server/controllers/userController.js:29-57 | 404 when the user is missing. Otherwise 200 with the user, which never includes a password. |
| UserController.GetUserByDecimalId | server/controllers/userController.js:31 | The path id `String(n)` of a stored user finds exactly that user. |
| UserController.UpdateUser | server/controllers/userController.js:62-119 | A failed lookup answers 500 and a missing user 404, both with no write. A different, truthy username answers 400 with no write. A defined `isAdmin` then sets the role; a failed role update answers 500 with no write. Only after that does a password answer 400, so the role change stays. A failed re-read answers 500 after the role change. Otherwise the answer is the re-read user without password. |
| UserController.UpdateUserRole | server/controllers/userController.js:86-99 | Past the username check, the role is `isAdmin ? 1 : 0` whatever the password. The answer's `isAdmin` is that role. |
| UserController.DeleteUser | server/controllers/userController.js:124-140 | Always 400 'User deletion is not currently supported'. |
| UserController.SearchUsersExact | server/controllers/userController.js:145-175 | A user is listed exactly when it is not the caller and its lower-cased name contains the lower-cased query. Results keep table order and `count` is their number. |
| UserController.SearchUsers | server/controllers/userController.js:145-175 | A failed read answers 500 with the error's message. Otherwise 200, with `count` equal to the number of results, which is at most the number of users. |
| Auth.BearerToken | server/middleware/auth.js:10-15 | A token is taken only from a header starting with `Bearer`, and it is the second space-separated field. |
| Auth.BearerTokenExample | server/middleware/auth.js:14 | `Bearer t` gives `t`. |
| Auth.MalformedHeaders | server/middleware/auth.js:18-23 | No header, another scheme, or `Bearer` alone answers 401 and never reaches `next`. |
| Auth.ReqUserOf | server/middleware/auth.js:40-43 | `req.user` is the row with `isAdmin === 1`. |
| Auth.Protect | server/middleware/auth.js:6-52 | No token, or a failed verification, answers 401. A verified id with no user answers 404. Otherwise `next` is called once, with the converted user. |
| Auth.Admin | server/middleware/auth.js:55-64 | `next` exactly when `req.user` exists with a truthy `isAdmin`; otherwise 403. |
| Auth.AdminRoute | server/routes/messages.js:21-23 | A refusal from `protect` is passed on as it is. Once `protect` passes, the route goes on exactly when `req.user.isAdmin` holds, with that user; otherwise 403. |
| Auth.AdminRouteGate | server/routes/messages.js:21-23 | An admin route reaches its handler exactly when the token verifies to a stored user whose `isAdmin` column is 1. |
| CreateAdmin.ParseArgs | create-admin.js:39-47 | A missing or empty username or password gives the usage exit; otherwise the script runs with both. |
| CreateAdmin.CreateAdminUser | create-admin.js:5-36 | The table and the outcome are those of `AdminRun`. The database is closed on every path, a rejection included. |
| CreateAdmin.AdminRows | create-admin.js:10-29 | An unknown name is created, with next id and one row more. An existing admin is untouched. An existing non-admin is promoted, with the table size and next id kept. |
| CreateAdmin.AdminRun | create-admin.js:5-31 | A rejected lookup, `updateRole` or `create` is caught as `Failed` with that error, and the table is left as it was. The run fails exactly when the lookup, or the one write the case needs, rejects. Otherwise the result is `AdminRows`. |
| CreateAdmin.Script | create-admin.js:39-50 | A usage error exits 1 before any database call. Otherwise `createAdminUser` runs, with the table and outcome of `AdminRun`. |
| CreateAdmin.AdminRowsAdmin | create-admin.js:10-27 | Afterwards the named user exists with `isAdmin` 1, the table is well formed, and at most one user has been added. |
| CreateAdmin.AdminRowsIdempotent | create-admin.js:10-27 | A second run leaves the table as the first left it. |
| CreateAdmin.PromoteKeepsPassword | create-admin.js:10-16 | A promoted user keeps its id and password; the supplied password is ignored. |
| ClientMessages.FromServerAllNoObjectIds | client/src/pages/Chat.js:43 | A list built from server messages has no `_id`. |
| ClientMessages.FromServer | client/src/pages/Chat.js:43 | A server message becomes a record with no `_id` on itself or its sender, not pending, with the server's id, sender id and content. |
| ClientMessages.FromServerAll | client/src/pages/Chat.js:43 | One client record per server message, in order. |
| ClientMessages.AppendNew | client/src/pages/Chat.js:93-97 | The list is kept or gains `m` at its end, and it is kept exactly when an entry matches. |
| ClientMessages.DropApproved | client/src/pages/Chat.js:101-105 | The kept entries are exactly those matching neither the `id` nor the `_id` of the message; the list does not grow. |
| ClientMessages.DropId | client/src/pages/AdminDashboard.js:46-48 | The kept entries are exactly those whose `id` and `_id` both differ from the id; the list does not grow. |
| ClientMessages.AppendNewResult | client/src/pages/Chat.js:93-97 | The list either stays or gains the message at its end, the latter exactly when no entry matches on `id` or `_id` under `===`. |
| ClientMessages.AppendNewWithoutObjectIds | client/src/pages/Chat.js:93-97 | Without `_id`s, `undefined === undefined` makes every entry match, so only an empty list gains the message. |
| ClientMessages.DropApprovedExact | client/src/pages/Chat.js:101-105 | An entry survives exactly when both its `id` and its `_id` differ from the message's; survivors keep their order. |
| ClientMessages.DropApprovedClears | client/src/pages/AdminDashboard.js:51-53 | Without `_id`s the second test is always false, so the whole list goes. |
| ClientMessages.DropIdExact | client/src/pages/AdminDashboard.js:46-48 | Exactly the entries whose `id` or `_id` equals the id go. The others stay in order, and the length falls by the number removed. |
| ClientMessages.DropIdCount | client/src/pages/Chat.js:139 | The removed entries plus the kept ones make up the list. |
| ClientMessages.DropIdWithoutObjectIds | client/src/pages/Chat.js:137-140 | For a numeric id and entries without `_id`, exactly the entries with that `id` go. |
| ClientMessages.Draft | client/src/pages/Chat.js:188-193 | A blank or space-only input gives nothing. Otherwise the text is trimmed: non-empty, with no space at either end. |
| Chat.Dispatch | client/src/pages/Chat.js:89-166 | A listener is reached only by an event of its own name. |
| Chat.RejectionNeverDispatched | client/src/pages/Chat.js:137 | No event the server emits reaches the `message_rejected` listener. |
| Chat.MergeFetchedExact | client/src/pages/Chat.js:59-64 | The current list stays in front. After it come exactly the fetched entries whose `id \|\| _id` is not a key of the captured list, in fetched order. |
| Chat.MergeFetched | client/src/pages/Chat.js:59-64 | The current list stays in front. Every fetched entry whose key is new is added, and nothing comes from elsewhere. |
| Chat.MergeFetchedAtMount | client/src/pages/Chat.js:53-72 | At mount the captured list is empty, so every fetched entry is appended, even one that already arrived by socket. |
| Chat.ChatPage.constructor | client/src/pages/Chat.js:29-36 | Empty lists, and `user_connected` with the user's id once the socket exists. |
| Chat.ChatPage.OnApprovedMessage | client/src/pages/Chat.js:89-114 | The message is appended unless an entry matches it. For the user's own message, the pending entries it matches are dropped. Its `id` and `_id` leave the in-flight set. |
| Chat.ChatPage.OnPendingApproval | client/src/pages/Chat.js:122-134 | For an admin, the message is appended only when no entry matches; for anyone else, nothing. |
| Chat.ChatPage.OnMessageRejected | client/src/pages/Chat.js:137-148 | Removes the pending entries with that `id` or `_id`, and the id from the in-flight set. |
| Chat.ChatPage.OnMessageError | client/src/pages/Chat.js:162-166 | The in-flight set becomes empty. |
| Chat.ChatPage.Receive | client/src/pages/Chat.js:85-166 | Each event changes only what its listener changes. |
| Chat.ChatPage.FetchMessagesResume | client/src/pages/Chat.js:39-50 | A successful reply replaces the message list; a failure changes nothing. |
| Chat.ChatPage.FetchPendingResume | client/src/pages/Chat.js:54-69 | For an admin, a successful reply merges the fetched list into the pending list. |
| Chat.ChatPage.SendMessage | client/src/pages/Chat.js:185-212 | Blank input does nothing. Otherwise the trimmed text is emitted with the user's id, exactly one entry with `isPending` true and the user as sender is appended, and the input is cleared. |
| Chat.ChatPage.ApproveMessage | client/src/pages/Chat.js:215-226 | Nothing for a non-admin or without a socket. Otherwise the id is added to the in-flight set before `approve_message` is emitted. |
| Chat.ChatPage.RejectMessage | client/src/pages/Chat.js:229-240 | The same, with `reject_message`. |
| Chat.ApprovedServerMessage | client/src/pages/Chat.js:93-105 | For lists of server messages, an approved message is added only to an empty list; the user's own message empties the pending list. |
| Chat.DraftEntryWithoutObjectId | client/src/pages/Chat.js:197-208 | A draft entry has no `_id`, so the pending list never gains one. |
| AdminDashboard.Dispatch | client/src/pages/AdminDashboard.js:40-53 | A listener is reached only by an event of its own name. |
| AdminDashboard.RejectionNeverDispatched | client/src/pages/AdminDashboard.js:46 | No event the server emits reaches the dashboard's `message_rejected` listener. |
| AdminDashboard.ToggleUsersExact | client/src/pages/AdminDashboard.js:139-143 | A user whose id `===` the id gets `isAdmin: !isAdmin`; every other user is unchanged. |
| AdminDashboard.ToggleUsers | client/src/pages/AdminDashboard.js:139-143 | The list keeps its length. |
| AdminDashboard.ToggleFlips | client/src/pages/AdminDashboard.js:131-143 | With ids unique and the button passing the user's own flag, exactly that user's role flips. |
| AdminDashboard.AdminPage.constructor | client/src/pages/AdminDashboard.js:18-33 | Only an admin gets a socket and emits `user_connected`. |
| AdminDashboard.AdminPage.Receive | client/src/pages/AdminDashboard.js:40-53 | `pending_approval` appends unconditionally, so duplicates are possible. A rejection and an approval filter the list. |
| AdminDashboard.AdminPage.FetchPendingResume | client/src/pages/AdminDashboard.js:66-72 | A successful reply replaces the pending list. A thrown request sets 'Error loading data' and ends the fetch. |
| AdminDashboard.AdminPage.FetchUsersResume | client/src/pages/AdminDashboard.js:75-84 | A successful reply replaces the user list; a thrown request sets the error. |
| AdminDashboard.AdminPage.ApproveBegin | client/src/pages/AdminDashboard.js:91-99 | Nothing without a socket. Otherwise `approve_message` is emitted, then `PUT /api/messages/:id/approve` is sent. |
| AdminDashboard.AdminPage.ApproveResume | client/src/pages/AdminDashboard.js:101-107 | The entry is removed only when the REST call succeeded. |
| AdminDashboard.AdminPage.DeleteBegin | client/src/pages/AdminDashboard.js:111-119 | Nothing without a socket. Otherwise `reject_message` is emitted, then `DELETE /api/messages/:id` is sent. |
| AdminDashboard.AdminPage.DeleteResume | client/src/pages/AdminDashboard.js:121-127 | The entry is removed only when the REST call succeeded. |
| AdminDashboard.AdminPage.ToggleAdminBegin | client/src/pages/AdminDashboard.js:133-135 | `PUT /api/users/:id` with `{isAdmin: !isAdmin}`. |
| AdminDashboard.AdminPage.ToggleAdminResume | client/src/pages/AdminDashboard.js:137-147 | On success the user list is toggled; otherwise it is unchanged. |
| Moderation.SocketThenRestApprove | client/src/pages/AdminDashboard.js:96-99 | If the socket approve runs first, both paths succeed, and the row ends up approved by the admin's numeric id at the REST call's time. |
| Moderation.RestThenSocketApprove | client/src/pages/AdminDashboard.js:96-99 | If the REST approve runs first, both paths succeed; the socket broadcasts an approval of an already-approved message. |
| Moderation.SocketThenRestDelete | client/src/pages/AdminDashboard.js:116-126 | If the socket reject runs first, it deletes the row. The REST delete then answers 404, `axios` throws, and the dashboard keeps the entry. |
| Moderation.RestThenSocketDelete | client/src/pages/AdminDashboard.js:116-126 | If the REST delete runs first, it succeeds, and the socket reject finds nothing. |
| PrivateChat.Normalize | client/src/pages/PrivateChat.js:88-98 | Both ends become `{id, username}`, and id, content and time are kept. |
| PrivateChat.NormalizeShapes | client/src/pages/PrivateChat.js:91 | A nested truthy `id`, a plain truthy id, or only `senderId` all give the same sender id. |
| PrivateChat.FromServer | client/src/pages/PrivateChat.js:53-56 | A fetched message keeps its id, ends, content and time, with both ends as `{id, username}` objects and no `_id`. |
| PrivateChat.FromServerAll | client/src/pages/PrivateChat.js:53-56 | One entry per fetched message, in order. |
| PrivateChat.Belongs | client/src/pages/PrivateChat.js:101-108 | Only a message whose recipient id is a number, and whose sender id parses as one, can belong. |
| PrivateChat.BelongsExact | client/src/pages/PrivateChat.js:101-108 | With numeric ids, a message is appended exactly when it goes from the partner to me or from me to the partner. |
| PrivateChat.BelongsStringSender | client/src/pages/PrivateChat.js:102 | A sender id given as a decimal string is parsed as the number it names. |
| PrivateChat.NonNumericRecipientIgnored | client/src/pages/PrivateChat.js:105-106 | The recipient id is not parsed, so a string recipient never matches. |
| PrivateChat.OwnExact | client/src/pages/PrivateChat.js:170-181 | A numeric or decimal-string sender is one's own exactly when it is the user's id. A falsy nested id is never one's own. |
| PrivateChat.FormatMessage | client/src/pages/PrivateChat.js:170-181 | Own exactly when `parseInt(sender?.id \|\| sender)` is the user's id. The id is `id \|\| _id`, and the content and time are kept. |
| PrivateChat.MissingPartnerMessage | client/src/pages/PrivateChat.js:43-63 | A partner who is no user gets a 404, so the request throws and the page shows the server's 'User not found' note after the prefix. |
| PrivateChat.SortedOldestFirst | client/src/pages/PrivateChat.js:53-56 | The shown list is a permutation of the fetched list, sorted oldest first. |
| PrivateChat.Sorted | client/src/pages/PrivateChat.js:53-56 | The shown list is the fetched list rearranged, of the same length. |
| PrivateChat.PrivateChatPage.constructor | client/src/pages/PrivateChat.js:30-36 | With a route id, the socket is created and `user_connected` is emitted. |
| PrivateChat.PrivateChatPage.FetchUserResume | client/src/pages/PrivateChat.js:39-67 | A thrown request shows the prefixed server note. A resolved reply without success shows 'User not found'. Otherwise the recipient is kept and the messages are fetched next. |
| PrivateChat.PrivateChatPage.FetchMessagesResume | client/src/pages/PrivateChat.js:49-66 | A successful reply's messages, sorted oldest first, replace the list. A thrown request keeps the list and sets the error. |
| PrivateChat.PrivateChatPage.OnReceive | client/src/pages/PrivateChat.js:84-109 | The normalised message is appended exactly when it belongs to this conversation. |
| PrivateChat.PrivateChatPage.OnMessageError | client/src/pages/PrivateChat.js:117-121 | Shows the error, or 'Error sending message' when it is empty. |
| PrivateChat.PrivateChatPage.SendMessage | client/src/pages/PrivateChat.js:136-167 | Nothing for blank input or an unknown recipient. Otherwise the trimmed text is emitted to `parseInt(userId)`, one optimistic message is appended, and the input is cleared. |
| PrivateChat.OptimisticIsOwn | client/src/pages/PrivateChat.js:149-161 | The optimistic message displays as one's own for a non-zero user id, and it passes the conversation test of its own route. |
| PrivateChat.Optimistic | client/src/pages/PrivateChat.js:149-161 | The temporary id, the user as sender, the route id as recipient, whose name is never empty ('User' at worst), and the trimmed text. |
| Register.ValidateOrder | client/src/pages/Register.js:20-30 | Each message is given exactly when the earlier checks pass and its own fails: empty field, then mismatch, then fewer than 6 code units. |
| Register.Validate | client/src/pages/Register.js:20-30 | No message exactly when the user name is filled, the two passwords agree and the password has at least 6 UTF-16 units. Any message is one of the three. |
| Register.Submit | client/src/pages/Register.js:16-46 | A validation message exactly when a check fails, and then `register` is not consulted. Registered exactly when the checks pass and `register` resolves with success. A shown error is never empty. |
| Register.RegisterOnlyWhenValid | client/src/pages/Register.js:20-36 | `register` is reached only when every check passes; otherwise the outcome is the validation message. |
| Register.FailureMessage | client/src/pages/Register.js:36-46 | On success, navigate away. On failure, show `result.error`, or 'Registration failed' when it is missing. A thrown exception shows 'Error during registration'. |
| Register.WhitespacePasses | client/src/pages/Register.js:20-30 | Nothing is trimmed: a blank user name and a six-space password pass. |
| Register.MismatchBeforeLength | client/src/pages/Register.js:24-30 | A short, mismatched pair gets the mismatch message. |
| Register.LengthInCodeUnits | client/src/pages/Register.js:28 | The length counts UTF-16 code units. |

## Left out

- Transport: socket.io delivery order, rooms beyond the socket's own id and the HTTP server are not modelled. Emits are appended to a log and requests to a list.
- Rendering, styling, scrolling, notification sounds, the `setTimeout` that clears errors and the `loading` flags of the chat and dashboard pages are user interface, not logic.
- `setLoading` on the private chat page is kept only where the fetch sets it; `navigate` after registration is the `Registered` outcome.
- Wall-clock time: timestamps are caller-supplied naturals. `Date.now()` temporary ids are parameters.
- Password hashing and JWT: the caller supplies the hash. `jwt.verify` is a map from token to decoded id, and a missing token in the map is a thrown verification.
- Database faults are explicit parameters, one per awaited statement a modelled operation issues: `fault` for a write and `readFault` for the read-back after it. A failed write leaves the table as it was; a failed read-back comes after its write. Schema creation and connection handling in `server/config/db.js` are not part of this model; only its column defaults are used.
- `Sql.RowKey`: a string that SQLite would convert to an integer but that is not in canonical decimal form (`"01"`, `" 1"`) is treated as matching no row.
- Numbers are integers only: no fractions, no `Infinity`, and no hexadecimal or leading-space forms in `parseInt`.
- `toLowerCase` lowers ASCII letters only.
- ORDER BY ties: rows with equal timestamps keep table order. SQLite leaves their order open.
- GROUP BY in `getUserConversations`: groups come in first-appearance order before the sort. SQLite leaves this open.
- `Object.values(messageCounts)`: buckets are listed in insertion order. JavaScript lists integer-like keys in numeric order instead; the tally is always empty anyway.
- Chat.Dispatch: a `pending_approval` whose payload is `null` is not decoded into a message. The real listener would append `null` and fail on its `id`.
- PrivateChat.FieldValue: every object stands for `[object Object]`/`Obj(0)`, so object identity between messages on the private chat page is not kept.
- Chat.ChatPage: the page's user is taken to be logged in. The logged-out render returns before any handler can run.
- UserController.UpdateUser: the re-read always finds the user it just found, since no modelled operation deletes users.
- Users.UserTable.Create: the bcrypt salt and its 10 rounds are not modelled; the caller passes the hash.
- `User.updateLastSeen`, `PrivateMessage.findById`, `Message.findById` and `getConversations`'s logging are not used by the modelled core. `findById` is covered by `JoinedById`.
- The wiring in `server/index.js` (which calls a `socketHandler` export that `socket.js` does not define) and the other route files are not part of this model, beyond the admin gate of the message routes.
- `client/src/context/AuthContext.js`, `Dashboard.js`, `Login.js`, `Navigation.js` and `App.js` are not part of this model.
