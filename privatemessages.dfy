/** The private-message table: rows from a sender to a recipient with a
    `read` flag, the conversation and unread queries the REST API and the
    socket server run on it, and its three writes. */
module PrivateMessages {
  import opened Js
  import opened Sql
  import opened Seqs
  import Users

  /** A row of `privateMessages`; `sender`, `recipient` and `content` hold
      the stored SQL values. */
  datatype PrivateRow = PrivateRow(
    id: int,
    sender: JsVal,
    recipient: JsVal,
    content: JsVal,
    read: int,
    readAt: Option<nat>,
    createdAt: nat,
    updatedAt: nat)

  ghost predicate ValidPrivate(rows: seq<PrivateRow>, nextId: int) {
    1 <= nextId
    && (forall i :: 0 <= i < |rows| ==> 1 <= rows[i].id < nextId)
    && (forall i, j :: 0 <= i < j < |rows| ==> rows[i].id < rows[j].id)
  }

  /** `{id, username}` of a joined user. */
  datatype Party = Party(id: JsVal, username: string)

  /** A row with `sender` and `recipient` reshaped into `{id, username}`
      and the joined username columns gone. */
  datatype PrivateMessage = PrivateMessage(
    id: int,
    sender: Party,
    recipient: Party,
    content: JsVal,
    read: int,
    readAt: Option<nat>,
    createdAt: nat,
    updatedAt: nat)

  /** A stored id column equals the bound parameter `param`. */
  predicate KeyIs(stored: JsVal, param: JsVal) {
    RowKey(param).Some? && stored == Num(RowKey(param).value)
  }

  /** The row joined with both its users; a row whose sender or recipient
      is no user drops out of the inner JOINs. */
  function JoinRow(row: PrivateRow, users: seq<Users.UserRow>): (r: Option<PrivateMessage>)
    ensures r.Some? <==> Users.FindById(users, RowKey(row.sender)).Some? && Users.FindById(users, RowKey(row.recipient)).Some?
    ensures r.Some? ==> r.value.id == row.id && r.value.read == row.read && r.value.createdAt == row.createdAt
    ensures r.Some? ==> r.value.sender.id == row.sender && r.value.recipient.id == row.recipient
  {
    var s := Users.FindById(users, RowKey(row.sender));
    var t := Users.FindById(users, RowKey(row.recipient));
    if s.None? || t.None? then None
    else Some(PrivateMessage(row.id, Party(row.sender, s.value.username), Party(row.recipient, t.value.username),
                             row.content, row.read, row.readAt, row.createdAt, row.updatedAt))
  }

  function JoinAll(rows: seq<PrivateRow>, users: seq<Users.UserRow>): (r: seq<PrivateMessage>)
    ensures |r| <= |rows|
    ensures forall m :: m in r ==> exists row :: row in rows && JoinRow(row, users) == Some(m)
    ensures forall row :: row in rows && JoinRow(row, users).Some? ==> JoinRow(row, users).value in r
  {
    if rows == [] then []
    else
      (if JoinRow(rows[0], users).Some? then [JoinRow(rows[0], users).value] else [])
      + JoinAll(rows[1..], users)
  }

  function CreatedAt(m: PrivateMessage): int { m.createdAt }

  /** `ORDER BY pm.createdAt DESC LIMIT ?` over the joined rows. */
  function NewestFirst(rows: seq<PrivateRow>, users: seq<Users.UserRow>, limit: nat): (r: seq<PrivateMessage>)
    ensures |r| <= limit
  {
    Page(SortByDesc(JoinAll(rows, users), CreatedAt), limit, 0)
  }

  lemma NewestFirstSorted(rows: seq<PrivateRow>, users: seq<Users.UserRow>, limit: nat)
    ensures var r := NewestFirst(rows, users, limit);
            forall i, j :: 0 <= i < j < |r| ==> r[i].createdAt >= r[j].createdAt
  {
    var sorted := SortByDesc(JoinAll(rows, users), CreatedAt);
    SortByDescSorted(JoinAll(rows, users), CreatedAt);
    var r := NewestFirst(rows, users, limit);
    assert r == sorted[..|r|];
    forall i, j | 0 <= i < j < |r| ensures CreatedAt(r[i]) >= CreatedAt(r[j]) {
      assert r[i] == sorted[i] && r[j] == sorted[j];
    }
  }

  /** Every message of `NewestFirst` comes from one of the rows. */
  lemma NewestFirstFrom(rows: seq<PrivateRow>, users: seq<Users.UserRow>, limit: nat, m: PrivateMessage)
    requires m in NewestFirst(rows, users, limit)
    ensures exists row :: row in rows && JoinRow(row, users) == Some(m)
  {
    var all := JoinAll(rows, users);
    var sorted := SortByDesc(all, CreatedAt);
    assert m in sorted;
    assert m in multiset(all);
  }

  /** With a large enough limit nothing joined is cut off. */
  lemma NewestFirstComplete(rows: seq<PrivateRow>, users: seq<Users.UserRow>, limit: nat, row: PrivateRow)
    requires row in rows && JoinRow(row, users).Some? && |rows| <= limit
    ensures JoinRow(row, users).value in NewestFirst(rows, users, limit)
  {
    var all := JoinAll(rows, users);
    var sorted := SortByDesc(all, CreatedAt);
    assert JoinRow(row, users).value in multiset(sorted);
    assert NewestFirst(rows, users, limit) == sorted;
  }

  // ---------------------------------------------------------------------
  // Queries

  const ConversationLimit: nat := 100
  const ConversationsLimit: nat := 20

  /** `(pm.sender = a AND pm.recipient = b) OR (pm.sender = b AND pm.recipient = a)` */
  predicate Between(a: JsVal, b: JsVal, row: PrivateRow) {
    (KeyIs(row.sender, a) && KeyIs(row.recipient, b)) || (KeyIs(row.sender, b) && KeyIs(row.recipient, a))
  }

  /** `PrivateMessage.getConversation(a, b, limit)` */
  function GetConversation(rows: seq<PrivateRow>, users: seq<Users.UserRow>, a: JsVal, b: JsVal, limit: nat): (r: seq<PrivateMessage>)
    ensures |r| <= limit
  {
    NewestFirst(Filter(rows, row => Between(a, b, row)), users, limit)
  }

  lemma {:induction false} FilterSame<T>(s: seq<T>, p: T -> bool, q: T -> bool)
    requires forall x :: p(x) == q(x)
    ensures Filter(s, p) == Filter(s, q)
  {
    if s != [] { FilterSame(s[1..], p, q); }
  }

  /** The conversation of a with b is the conversation of b with a. */
  lemma ConversationSymmetric(rows: seq<PrivateRow>, users: seq<Users.UserRow>, a: JsVal, b: JsVal, limit: nat)
    ensures GetConversation(rows, users, a, b, limit) == GetConversation(rows, users, b, a, limit)
  {
    FilterSame(rows, row => Between(a, b, row), row => Between(b, a, row));
  }

  /** The conversation holds only messages between a and b, newest first;
      and, within the limit, every joined message between them. */
  lemma ConversationExact(rows: seq<PrivateRow>, users: seq<Users.UserRow>, a: JsVal, b: JsVal, limit: nat)
    ensures var r := GetConversation(rows, users, a, b, limit);
            && (forall m :: m in r ==> exists row :: row in rows && Between(a, b, row) && JoinRow(row, users) == Some(m))
            && (forall i, j :: 0 <= i < j < |r| ==> r[i].createdAt >= r[j].createdAt)
            && (|rows| <= limit ==>
                  forall row :: row in rows && Between(a, b, row) && JoinRow(row, users).Some? ==> JoinRow(row, users).value in r)
  {
    var sel := Filter(rows, row => Between(a, b, row));
    NewestFirstSorted(sel, users, limit);
    forall m | m in GetConversation(rows, users, a, b, limit)
      ensures exists row :: row in rows && Between(a, b, row) && JoinRow(row, users) == Some(m)
    {
      NewestFirstFrom(sel, users, limit, m);
    }
    if |rows| <= limit {
      forall row | row in rows && Between(a, b, row) && JoinRow(row, users).Some?
        ensures JoinRow(row, users).value in GetConversation(rows, users, a, b, limit)
      {
        NewestFirstComplete(sel, users, limit, row);
      }
    }
  }

  /** `pm.sender = u OR pm.recipient = u` */
  predicate Involves(u: JsVal, row: PrivateRow) {
    KeyIs(row.sender, u) || KeyIs(row.recipient, u)
  }

  /** `PrivateMessage.getUserMessages(u, limit)`: `sender` and `recipient`
      are `{id, username}` objects. */
  function GetUserMessages(rows: seq<PrivateRow>, users: seq<Users.UserRow>, u: JsVal, limit: nat): (r: seq<PrivateMessage>)
    ensures |r| <= limit
  {
    NewestFirst(Filter(rows, row => Involves(u, row)), users, limit)
  }

  /** Every message of `getUserMessages(u)` is the joined form of a row
      with u as its sender or recipient, and they come newest first;
      within the limit, every joined row of u's is listed. */
  lemma UserMessagesExact(rows: seq<PrivateRow>, users: seq<Users.UserRow>, u: JsVal, limit: nat)
    ensures var r := GetUserMessages(rows, users, u, limit);
            && (forall m :: m in r ==> exists row :: row in rows && Involves(u, row) && JoinRow(row, users) == Some(m))
            && (forall m :: m in r ==> KeyIs(m.sender.id, u) || KeyIs(m.recipient.id, u))
            && (forall i, j :: 0 <= i < j < |r| ==> r[i].createdAt >= r[j].createdAt)
            && (|rows| <= limit ==>
                  forall row :: row in rows && Involves(u, row) && JoinRow(row, users).Some? ==> JoinRow(row, users).value in r)
  {
    var sel := Filter(rows, row => Involves(u, row));
    NewestFirstSorted(sel, users, limit);
    forall m | m in GetUserMessages(rows, users, u, limit)
      ensures exists row :: row in rows && Involves(u, row) && JoinRow(row, users) == Some(m)
    {
      NewestFirstFrom(sel, users, limit, m);
    }
    if |rows| <= limit {
      forall row | row in rows && Involves(u, row) && JoinRow(row, users).Some?
        ensures JoinRow(row, users).value in GetUserMessages(rows, users, u, limit)
      {
        NewestFirstComplete(sel, users, limit, row);
      }
    }
  }

  /** `recipient = u AND read = 0` */
  predicate UnreadFor(u: JsVal, row: PrivateRow) {
    KeyIs(row.recipient, u) && row.read == 0
  }

  /** `PrivateMessage.getUnreadMessagesCount(u)` */
  function GetUnreadMessagesCount(rows: seq<PrivateRow>, u: JsVal): (n: nat)
    ensures n <= |rows|
  {
    Count(rows, row => UnreadFor(u, row))
  }

  /** The count is the number of unread rows addressed to u, and 0
      exactly when there is none. */
  lemma UnreadCountExact(rows: seq<PrivateRow>, u: JsVal)
    ensures GetUnreadMessagesCount(rows, u) == |Filter(rows, row => UnreadFor(u, row))|
    ensures GetUnreadMessagesCount(rows, u) == 0 <==> forall i :: 0 <= i < |rows| ==> !UnreadFor(u, rows[i])
  {
    FilterLength(rows, row => UnreadFor(u, row));
    CountZero(rows, row => UnreadFor(u, row));
  }

  // ---------------------------------------------------------------------
  // getUserConversations

  /** One row of `getUserConversations`. */
  datatype Conversation = Conversation(userId: JsVal, username: string, lastMessageTime: nat, unreadCount: nat)

  /** `CASE WHEN pm.sender = u THEN pm.recipient ELSE pm.sender END` */
  function OtherOf(u: JsVal, row: PrivateRow): JsVal {
    if KeyIs(row.sender, u) then row.recipient else row.sender
  }

  /** The row belongs to the group of participant `other`. */
  predicate InGroup(u: JsVal, other: JsVal, row: PrivateRow) {
    Involves(u, row) && OtherOf(u, row) == other
  }

  /** The other participants of u's rows, once each, in the order they
      first appear (SQLite leaves the order of groups open). */
  function Partners(rows: seq<PrivateRow>, u: JsVal): (r: seq<JsVal>)
    ensures Distinct(r)
  {
    if rows == [] then []
    else
      var last := rows[|rows| - 1];
      var r := Partners(rows[..|rows| - 1], u);
      if Involves(u, last) && OtherOf(u, last) !in r then r + [OtherOf(u, last)] else r
  }

  /** `GROUP BY otherUserId` loses no participant and invents none. */
  lemma {:induction false} PartnersMembers(rows: seq<PrivateRow>, u: JsVal, o: JsVal)
    ensures o in Partners(rows, u) <==> exists row :: row in rows && InGroup(u, o, row)
  {
    if rows != [] {
      var init, last := rows[..|rows| - 1], rows[|rows| - 1];
      PartnersMembers(init, u, o);
      assert rows == init + [last];
      if exists row :: row in rows && InGroup(u, o, row) {
        var row :| row in rows && InGroup(u, o, row);
        if row != last {
          assert row in init;
        }
      }
      if o in Partners(rows, u) && o !in Partners(init, u) {
        assert InGroup(u, o, last);
      }
    }
  }

  /** `MAX(pm.createdAt)` of the group of `other` (0 for an empty group). */
  function LastTime(rows: seq<PrivateRow>, u: JsVal, other: JsVal): nat {
    if rows == [] then 0
    else
      var t := LastTime(rows[1..], u, other);
      if InGroup(u, other, rows[0]) && rows[0].createdAt > t then rows[0].createdAt else t
  }

  /** `LastTime` is the latest `createdAt` of the group, attained by one of
      its rows. */
  lemma {:induction false} LastTimeIsMax(rows: seq<PrivateRow>, u: JsVal, other: JsVal)
    ensures forall row :: row in rows && InGroup(u, other, row) ==> row.createdAt <= LastTime(rows, u, other)
    ensures (exists row :: row in rows && InGroup(u, other, row)) ==>
              exists row :: row in rows && InGroup(u, other, row) && row.createdAt == LastTime(rows, u, other)
    ensures (forall row :: row in rows ==> !InGroup(u, other, row)) ==> LastTime(rows, u, other) == 0
  {
    if rows != [] {
      LastTimeIsMax(rows[1..], u, other);
      assert forall row :: row in rows <==> row == rows[0] || row in rows[1..];
      var t := LastTime(rows[1..], u, other);
      if InGroup(u, other, rows[0]) && rows[0].createdAt > t {
      } else if exists row :: row in rows[1..] && InGroup(u, other, row) {
      } else if InGroup(u, other, rows[0]) {
        assert rows[0].createdAt == t;
      }
    }
  }

  /** `recipient = u AND sender = other AND read = 0` */
  predicate UnreadFrom(u: JsVal, other: JsVal, row: PrivateRow) {
    KeyIs(row.recipient, u) && row.sender == other && row.read == 0
  }

  /** The group of `other`, joined with that participant's user row (the
      inner JOIN drops a participant who is no user). */
  function Group(rows: seq<PrivateRow>, users: seq<Users.UserRow>, u: JsVal, other: JsVal): Option<Conversation> {
    match Users.FindById(users, RowKey(other))
    case None => None
    case Some(user) => Some(Conversation(other, user.username, LastTime(rows, u, other), Count(rows, row => UnreadFrom(u, other, row))))
  }

  function Groups(partners: seq<JsVal>, rows: seq<PrivateRow>, users: seq<Users.UserRow>, u: JsVal): (r: seq<Conversation>)
    ensures |r| <= |partners|
    ensures forall c :: c in r ==> c.userId in partners && Group(rows, users, u, c.userId) == Some(c)
  {
    if partners == [] then []
    else
      var rest := Groups(partners[1..], rows, users, u);
      match Group(rows, users, u, partners[0])
      case None => rest
      case Some(c) => [c] + rest
  }

  lemma {:induction false} GroupsDistinct(partners: seq<JsVal>, rows: seq<PrivateRow>, users: seq<Users.UserRow>, u: JsVal)
    requires Distinct(partners)
    ensures Distinct(Groups(partners, rows, users, u))
  {
    if partners != [] {
      GroupsDistinct(partners[1..], rows, users, u);
      assert partners[0] !in partners[1..];
    }
  }

  function LastMessageTime(c: Conversation): int { c.lastMessageTime }

  /** `PrivateMessage.getUserConversations(u, limit)` */
  function GetUserConversations(rows: seq<PrivateRow>, users: seq<Users.UserRow>, u: JsVal, limit: nat): (r: seq<Conversation>)
    ensures |r| <= limit
  {
    Page(SortByDesc(Groups(Partners(rows, u), rows, users, u), LastMessageTime), limit, 0)
  }

  /** Every row of `getUserConversations(u)` is the group of one of u's
      partners. */
  lemma UserConversationsMembers(rows: seq<PrivateRow>, users: seq<Users.UserRow>, u: JsVal, limit: nat)
    ensures var r := GetUserConversations(rows, users, u, limit);
            forall c :: c in r ==> c.userId in Partners(rows, u) && Group(rows, users, u, c.userId) == Some(c)
  {
    var groups := Groups(Partners(rows, u), rows, users, u);
    var sorted := SortByDesc(groups, LastMessageTime);
    var r := GetUserConversations(rows, users, u, limit);
    assert r == sorted[..|r|];
    forall c | c in r ensures c in groups {
      assert c in multiset(sorted);
    }
  }

  /** The rows of `getUserConversations(u)` come latest first, no
      participant twice. */
  lemma UserConversationsOrder(rows: seq<PrivateRow>, users: seq<Users.UserRow>, u: JsVal, limit: nat)
    ensures var r := GetUserConversations(rows, users, u, limit);
            forall i, j :: 0 <= i < j < |r| ==> r[i].lastMessageTime >= r[j].lastMessageTime && r[i].userId != r[j].userId
  {
    var groups := Groups(Partners(rows, u), rows, users, u);
    var sorted := SortByDesc(groups, LastMessageTime);
    SortByDescSorted(groups, LastMessageTime);
    GroupsDistinct(Partners(rows, u), rows, users, u);
    DistinctPermutation(groups, sorted);
    var r := GetUserConversations(rows, users, u, limit);
    assert r == sorted[..|r|];
    forall i, j | 0 <= i < j < |r| ensures r[i].lastMessageTime >= r[j].lastMessageTime && r[i].userId != r[j].userId {
      assert r[i] == sorted[i] && r[j] == sorted[j];
      assert LastMessageTime(sorted[i]) >= LastMessageTime(sorted[j]);
      assert sorted[i] in groups && sorted[j] in groups by {
        assert sorted[i] in multiset(sorted) && sorted[j] in multiset(sorted);
      }
    }
  }

  /** Every row of `getUserConversations(u)` is the group of one other
      participant who is a user, no participant twice, latest conversation
      first. */
  lemma UserConversationsShape(rows: seq<PrivateRow>, users: seq<Users.UserRow>, u: JsVal, limit: nat)
    ensures var r := GetUserConversations(rows, users, u, limit);
            && (forall c :: c in r ==> c.userId in Partners(rows, u) && Group(rows, users, u, c.userId) == Some(c))
            && (forall i, j :: 0 <= i < j < |r| ==> r[i].lastMessageTime >= r[j].lastMessageTime)
            && (forall i, j :: 0 <= i < j < |r| ==> r[i].userId != r[j].userId)
  {
    UserConversationsMembers(rows, users, u, limit);
    UserConversationsOrder(rows, users, u, limit);
  }

  /** A row of `getUserConversations(u)` carries the time of the latest
      message between u and that participant and the number of unread
      messages from them to u. */
  lemma UserConversationsValues(rows: seq<PrivateRow>, users: seq<Users.UserRow>, u: JsVal, limit: nat, c: Conversation)
    requires c in GetUserConversations(rows, users, u, limit)
    ensures exists row :: row in rows && InGroup(u, c.userId, row) && row.createdAt == c.lastMessageTime
    ensures forall row :: row in rows && InGroup(u, c.userId, row) ==> row.createdAt <= c.lastMessageTime
    ensures c.unreadCount == Count(rows, row => UnreadFrom(u, c.userId, row))
    ensures Users.FindById(users, RowKey(c.userId)).Some?
  {
    UserConversationsShape(rows, users, u, limit);
    PartnersMembers(rows, u, c.userId);
    LastTimeIsMax(rows, u, c.userId);
  }

  /** Every other participant who is a user has a row, when the limit
      allows. */
  lemma UserConversationsComplete(rows: seq<PrivateRow>, users: seq<Users.UserRow>, u: JsVal, row: PrivateRow)
    requires row in rows && Involves(u, row) && Users.FindById(users, RowKey(OtherOf(u, row))).Some?
    ensures exists c :: c in GetUserConversations(rows, users, u, |rows|) && c.userId == OtherOf(u, row)
  {
    var o := OtherOf(u, row);
    PartnersMembers(rows, u, o);
    var partners := Partners(rows, u);
    GroupsComplete(partners, rows, users, u, o);
    var groups := Groups(partners, rows, users, u);
    var c :| c in groups && c.userId == o;
    var sorted := SortByDesc(groups, LastMessageTime);
    assert c in multiset(sorted);
    PartnersLength(rows, u);
    assert GetUserConversations(rows, users, u, |rows|) == sorted;
  }

  lemma {:induction false} GroupsComplete(partners: seq<JsVal>, rows: seq<PrivateRow>, users: seq<Users.UserRow>, u: JsVal, o: JsVal)
    requires o in partners && Users.FindById(users, RowKey(o)).Some?
    ensures exists c :: c in Groups(partners, rows, users, u) && c.userId == o
  {
    if partners[0] != o {
      GroupsComplete(partners[1..], rows, users, u, o);
    } else {
      assert Groups(partners, rows, users, u)[0].userId == o;
    }
  }

  lemma {:induction false} PartnersLength(rows: seq<PrivateRow>, u: JsVal)
    ensures |Partners(rows, u)| <= |rows|
  {
    if rows != [] { PartnersLength(rows[..|rows| - 1], u); }
  }

  // ---------------------------------------------------------------------
  // Writes

  datatype Step<R> = Step(rows: seq<PrivateRow>, nextId: int, result: R)

  datatype Update<R> = Update(rows: seq<PrivateRow>, result: R)

  /** `PrivateMessage.create({sender, recipient, content})`: INSERT with
      `read` left to its default 0, then the joined read-back, `null` when
      the sender or the recipient is no user. A NULL column violates NOT
      NULL and `fault` is any other failure of the INSERT: neither inserts
      anything. `readFault` is a failure of the read-back, after the row
      is written. */
  function CreateStep(rows: seq<PrivateRow>, nextId: int, users: seq<Users.UserRow>,
                      sender: JsVal, recipient: JsVal, content: JsVal, now: nat,
                      fault: Option<DbError>, readFault: Option<DbError>)
    : (s: Step<Result<Option<PrivateMessage>>>)
    ensures fault.Some? ==> s.result == Failure(fault.value)
    ensures !(fault.None? && Bind(sender) != Null && Bind(recipient) != Null && Bind(content) != Null) ==>
              s.result.Failure? && s.rows == rows && s.nextId == nextId
    ensures fault.None? && Bind(sender) != Null && Bind(recipient) != Null && Bind(content) != Null ==>
              && s.rows == rows + [PrivateRow(nextId, IntegerAffinity(sender), IntegerAffinity(recipient), Bind(content), 0, None, now, now)]
              && s.nextId == nextId + 1
    ensures s.result.Success? <==>
              fault.None? && Bind(sender) != Null && Bind(recipient) != Null && Bind(content) != Null && readFault.None?
    ensures fault.None? && Bind(sender) != Null && Bind(recipient) != Null && Bind(content) != Null && readFault.Some? ==>
              s.result == Failure(readFault.value)
  {
    if fault.Some? then Step(rows, nextId, Failure(fault.value))
    else if Bind(sender) == Null then
      Step(rows, nextId, Failure(DbError("SQLITE_CONSTRAINT: NOT NULL constraint failed: privateMessages.sender")))
    else if Bind(recipient) == Null then
      Step(rows, nextId, Failure(DbError("SQLITE_CONSTRAINT: NOT NULL constraint failed: privateMessages.recipient")))
    else if Bind(content) == Null then
      Step(rows, nextId, Failure(DbError("SQLITE_CONSTRAINT: NOT NULL constraint failed: privateMessages.content")))
    else
      var row := PrivateRow(nextId, IntegerAffinity(sender), IntegerAffinity(recipient), Bind(content), 0, None, now, now);
      if readFault.Some? then Step(rows + [row], nextId + 1, Failure(readFault.value))
      else Step(rows + [row], nextId + 1, Success(JoinRow(row, users)))
  }

  /** A created message is unread, and it comes back with both ends as
      `{id, username}` exactly when both are users. */
  lemma CreateResult(rows: seq<PrivateRow>, nextId: int, users: seq<Users.UserRow>,
                     sender: JsVal, recipient: JsVal, content: JsVal, now: nat)
    requires ValidPrivate(rows, nextId)
    ensures var s := CreateStep(rows, nextId, users, sender, recipient, content, now, None, None);
            && ValidPrivate(s.rows, s.nextId)
            && (s.result.Success? ==>
                  && (s.result.value.Some? <==> Users.FindById(users, RowKey(sender)).Some? && Users.FindById(users, RowKey(recipient)).Some?)
                  && (s.result.value.Some? ==> s.result.value.value.read == 0 && s.result.value.value.id == nextId))
  {
    var s := CreateStep(rows, nextId, users, sender, recipient, content, now, None, None);
    if s.result.Success? {
      var row := PrivateRow(nextId, IntegerAffinity(sender), IntegerAffinity(recipient), Bind(content), 0, None, now, now);
      AppendValid(rows, nextId, row);
      assert s.result.value == JoinRow(row, users);
      IntegerAffinityKey(sender);
      IntegerAffinityKey(recipient);
    }
  }

  /** Create keeps the table well formed, whichever statement fails. */
  lemma CreateValid(rows: seq<PrivateRow>, nextId: int, users: seq<Users.UserRow>, sender: JsVal, recipient: JsVal,
                    content: JsVal, now: nat, fault: Option<DbError>, readFault: Option<DbError>)
    requires ValidPrivate(rows, nextId)
    ensures var s := CreateStep(rows, nextId, users, sender, recipient, content, now, fault, readFault);
            ValidPrivate(s.rows, s.nextId)
  {
    var s := CreateStep(rows, nextId, users, sender, recipient, content, now, fault, readFault);
    if fault.None? && Bind(sender) != Null && Bind(recipient) != Null && Bind(content) != Null {
      var row := PrivateRow(nextId, IntegerAffinity(sender), IntegerAffinity(recipient), Bind(content), 0, None, now, now);
      assert s.rows == rows + [row] && s.nextId == nextId + 1;
      AppendValid(rows, nextId, row);
    } else {
      assert s.rows == rows && s.nextId == nextId;
    }
  }

  /** Appending a row with the next id keeps the table well formed. */
  lemma AppendValid(rows: seq<PrivateRow>, nextId: int, row: PrivateRow)
    requires ValidPrivate(rows, nextId) && row.id == nextId
    ensures ValidPrivate(rows + [row], nextId + 1)
  {
    var r := rows + [row];
    forall i, j | 0 <= i < j < |r| ensures r[i].id < r[j].id {
      if j < |rows| {
        assert r[i] == rows[i] && r[j] == rows[j];
      } else {
        assert r[i] == rows[i] && r[j] == row;
      }
    }
    forall i | 0 <= i < |r| ensures 1 <= r[i].id < nextId + 1 {
      if i < |rows| {
        assert r[i] == rows[i];
      }
    }
  }

  /** The row marking as read writes. */
  function MarkedRead(row: PrivateRow, now: nat): PrivateRow {
    row.(read := 1, readAt := Some(now), updatedAt := now)
  }

  /** `UPDATE privateMessages SET read = 1, readAt = ?, updatedAt = ?
      WHERE p` */
  function MarkWhere(rows: seq<PrivateRow>, p: PrivateRow -> bool, now: nat): (r: seq<PrivateRow>)
    ensures |r| == |rows|
    ensures forall i :: 0 <= i < |rows| ==> r[i] == if p(rows[i]) then MarkedRead(rows[i], now) else rows[i]
  {
    if rows == [] then []
    else [if p(rows[0]) then MarkedRead(rows[0], now) else rows[0]] + MarkWhere(rows[1..], p, now)
  }

  /** `id = ?` */
  predicate HasId(id: JsVal, row: PrivateRow) {
    RowKey(id) == Some(row.id)
  }

  /** `PrivateMessage.markAsRead(id)`: `changes > 0`. */
  function MarkAsReadStep(rows: seq<PrivateRow>, id: JsVal, now: nat, fault: Option<DbError>): (s: Update<Result<bool>>)
    ensures s.result.Failure? <==> fault.Some?
    ensures fault.Some? ==> s.rows == rows
  {
    if fault.Some? then Update(rows, Failure(fault.value))
    else Update(MarkWhere(rows, row => HasId(id, row), now), Success(Count(rows, row => HasId(id, row)) > 0))
  }

  /** `recipient = r AND sender = s AND read = 0` */
  predicate UnreadBetween(r: JsVal, s: JsVal, row: PrivateRow) {
    row.read == 0 && KeyIs(row.recipient, r) && KeyIs(row.sender, s)
  }

  /** `PrivateMessage.markAllAsRead(recipientId, senderId)`: the number of
      rows changed. */
  function MarkAllAsReadStep(rows: seq<PrivateRow>, r: JsVal, s: JsVal, now: nat, fault: Option<DbError>): (u: Update<Result<nat>>)
    ensures u.result.Failure? <==> fault.Some?
    ensures fault.Some? ==> u.rows == rows
  {
    if fault.Some? then Update(rows, Failure(fault.value))
    else Update(MarkWhere(rows, row => UnreadBetween(r, s, row), now), Success(Count(rows, row => UnreadBetween(r, s, row))))
  }

  lemma {:induction false} MarkWhereValid(rows: seq<PrivateRow>, nextId: int, p: PrivateRow -> bool, now: nat)
    requires ValidPrivate(rows, nextId)
    ensures ValidPrivate(MarkWhere(rows, p, now), nextId)
  {
  }

  /** `markAsRead(id)` answers true exactly when a row has the id, read or
      not, and changes that row alone. */
  lemma MarkAsReadResult(rows: seq<PrivateRow>, id: JsVal, now: nat, i: nat)
    requires i < |rows|
    ensures var u := MarkAsReadStep(rows, id, now, None);
            && (u.result.value <==> exists k :: 0 <= k < |rows| && HasId(id, rows[k]))
            && u.rows[i] == if HasId(id, rows[i]) then MarkedRead(rows[i], now) else rows[i]
  {
    CountZero(rows, row => HasId(id, row));
  }

  /** The unread rows addressed to `r`, after marking those from `s`: the
      count drops by exactly the marked number. */
  lemma {:induction false} MarkAllUnread(rows: seq<PrivateRow>, r: JsVal, s: JsVal, now: nat)
    ensures Count(MarkWhere(rows, row => UnreadBetween(r, s, row), now), row => UnreadFor(r, row))
            == Count(rows, row => UnreadFor(r, row)) - Count(rows, row => UnreadBetween(r, s, row))
    ensures Count(MarkWhere(rows, row => UnreadBetween(r, s, row), now), row => UnreadBetween(r, s, row)) == 0
  {
    if rows != [] {
      MarkAllUnread(rows[1..], r, s, now);
      assert MarkWhere(rows, row => UnreadBetween(r, s, row), now)[1..] == MarkWhere(rows[1..], row => UnreadBetween(r, s, row), now);
    }
  }

  /** The rows `markAllAsRead(r, s)` leaves: none of the unread rows from
      s to r remains and every other row is as it was. */
  lemma MarkAllAsReadRows(rows: seq<PrivateRow>, r: JsVal, s: JsVal, now: nat)
    ensures var u := MarkAllAsReadStep(rows, r, s, now, None);
            forall i :: 0 <= i < |u.rows| ==> !UnreadBetween(r, s, u.rows[i])
    ensures var u := MarkAllAsReadStep(rows, r, s, now, None);
            forall i :: 0 <= i < |rows| && !UnreadBetween(r, s, rows[i]) ==> u.rows[i] == rows[i]
  {
  }

  /** The answer of `markAllAsRead(r, s)` is 0 exactly when there was no
      unread row from s to r. */
  lemma MarkAllAsReadNone(rows: seq<PrivateRow>, r: JsVal, s: JsVal, now: nat)
    ensures MarkAllAsReadStep(rows, r, s, now, None).result.value == 0 <==>
              forall i :: 0 <= i < |rows| ==> !UnreadBetween(r, s, rows[i])
  {
    CountZero(rows, row => UnreadBetween(r, s, row));
  }

  /** The counts around `markAllAsRead(r, s)`: r's unread count falls by
      the answer, and a second call answers 0. */
  lemma MarkAllAsReadCounts(rows: seq<PrivateRow>, r: JsVal, s: JsVal, now: nat, later: nat)
    ensures var u := MarkAllAsReadStep(rows, r, s, now, None);
            GetUnreadMessagesCount(u.rows, r) == GetUnreadMessagesCount(rows, r) - u.result.value
    ensures var u := MarkAllAsReadStep(rows, r, s, now, None);
            MarkAllAsReadStep(u.rows, r, s, later, None).result == Success(0)
  {
    MarkAllUnread(rows, r, s, now);
  }

  /** `markAllAsRead(r, s)` marks exactly the unread rows from s to r and
      answers their number k; none of them remain, every other row is as it
      was, `getUnreadMessagesCount(r)` falls by k, and a second call
      answers 0. */
  lemma MarkAllAsReadResult(rows: seq<PrivateRow>, r: JsVal, s: JsVal, now: nat, later: nat)
    ensures var u := MarkAllAsReadStep(rows, r, s, now, None);
            var k := u.result.value;
            && (k == 0 <==> forall i :: 0 <= i < |rows| ==> !UnreadBetween(r, s, rows[i]))
            && (forall i :: 0 <= i < |u.rows| ==> !UnreadBetween(r, s, u.rows[i]))
            && (forall i :: 0 <= i < |rows| && !UnreadBetween(r, s, rows[i]) ==> u.rows[i] == rows[i])
            && GetUnreadMessagesCount(u.rows, r) == GetUnreadMessagesCount(rows, r) - k
            && MarkAllAsReadStep(u.rows, r, s, later, None).result == Success(0)
  {
    MarkAllAsReadRows(rows, r, s, now);
    MarkAllAsReadNone(rows, r, s, now);
    MarkAllAsReadCounts(rows, r, s, now, later);
  }

  // ---------------------------------------------------------------------
  // The table as the server holds it

  class PrivateMessageTable {
    var rows: seq<PrivateRow>
    var nextId: int

    ghost predicate Valid()
      reads this
    {
      ValidPrivate(rows, nextId)
    }

    constructor ()
      ensures Valid() && rows == [] && nextId == 1
    {
      rows := [];
      nextId := 1;
    }

    method Create(users: seq<Users.UserRow>, sender: JsVal, recipient: JsVal, content: JsVal, now: nat,
                  fault: Option<DbError>, readFault: Option<DbError>)
      returns (r: Result<Option<PrivateMessage>>)
      requires Valid()
      modifies this
      ensures Valid()
      ensures var s := CreateStep(old(rows), old(nextId), users, sender, recipient, content, now, fault, readFault);
              rows == s.rows && nextId == s.nextId && r == s.result
    {
      var rows0, nextId0 := rows, nextId;
      var s := CreateStep(rows0, nextId0, users, sender, recipient, content, now, fault, readFault);
      CreateValid(rows0, nextId0, users, sender, recipient, content, now, fault, readFault);
      rows, nextId, r := s.rows, s.nextId, s.result;
    }

    method MarkAsRead(id: JsVal, now: nat, fault: Option<DbError>) returns (r: Result<bool>)
      requires Valid()
      modifies this`rows
      ensures Valid()
      ensures var u := MarkAsReadStep(old(rows), id, now, fault);
              rows == u.rows && r == u.result
    {
      var u := MarkAsReadStep(rows, id, now, fault);
      MarkWhereValid(rows, nextId, row => HasId(id, row), now);
      rows, r := u.rows, u.result;
    }

    method MarkAllAsRead(recipient: JsVal, sender: JsVal, now: nat, fault: Option<DbError>) returns (r: Result<nat>)
      requires Valid()
      modifies this`rows
      ensures Valid()
      ensures var u := MarkAllAsReadStep(old(rows), recipient, sender, now, fault);
              rows == u.rows && r == u.result
    {
      var u := MarkAllAsReadStep(rows, recipient, sender, now, fault);
      MarkWhereValid(rows, nextId, row => UnreadBetween(recipient, sender, row), now);
      rows, r := u.rows, u.result;
    }
  }
}
