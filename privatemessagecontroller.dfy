/** The REST handlers for private messages. `getPrivateMessages` reads a
    conversation and then marks it read, `sendPrivateMessage` inserts
    after checking the recipient, and `getUnreadMessages` tallies unread
    messages per sender in a loop. Each awaited statement may fail, which
    the handler answers with 500. */
module PrivateMessageController {
  import opened Js
  import opened Sql
  import opened Seqs
  import JsMap
  import Users
  import opened PrivateMessages
  import opened Http

  const UserNotFoundNote := "User not found"
  const RecipientNotFoundNote := "Recipient not found"

  /** `GET /api/messages/private/:userId`: the other user is looked up,
      the conversation is read, and only then are the other user's
      messages to the caller marked read; the answer carries the rows as
      they were read. */
  method GetPrivateMessages(table: PrivateMessageTable, users: seq<Users.UserRow>, current: ReqUser, other: string,
                            now: nat, lookupFault: Option<DbError>, readFault: Option<DbError>, markFault: Option<DbError>)
    returns (resp: Response)
    requires table.Valid()
    modifies table`rows
    ensures table.Valid()
    ensures lookupFault.Some? ==> resp == Fail500(lookupFault.value.message) && table.rows == old(table.rows)
    ensures lookupFault.None? && Users.FindById(users, RowKey(Str(other))).None? ==>
              resp == Response(404, false, Note(UserNotFoundNote)) && table.rows == old(table.rows)
    ensures lookupFault.None? && Users.FindById(users, RowKey(Str(other))).Some? && readFault.Some? ==>
              resp == Fail500(readFault.value.message) && table.rows == old(table.rows)
    ensures lookupFault.None? && Users.FindById(users, RowKey(Str(other))).Some? && readFault.None? ==>
              table.rows == MarkAllAsReadStep(old(table.rows), Num(current.id), Str(other), now, markFault).rows
    ensures lookupFault.None? && Users.FindById(users, RowKey(Str(other))).Some? && readFault.None? && markFault.Some? ==>
              resp == Fail500(markFault.value.message)
    ensures lookupFault.None? && Users.FindById(users, RowKey(Str(other))).Some? && readFault.None? && markFault.None? ==>
              var ms := GetConversation(old(table.rows), users, Num(current.id), Str(other), ConversationLimit);
              resp == Response(200, true, ConversationPage(|ms|, Users.FindById(users, RowKey(Str(other))).value.username, ms))
  {
    if lookupFault.Some? {
      return Fail500(lookupFault.value.message);
    }
    var otherUser := Users.FindById(users, RowKey(Str(other)));
    if otherUser.None? {
      return Response(404, false, Note(UserNotFoundNote));
    }
    if readFault.Some? {
      return Fail500(readFault.value.message);
    }
    var messages := GetConversation(table.rows, users, Num(current.id), Str(other), ConversationLimit);
    var marked := table.MarkAllAsRead(Num(current.id), Str(other), now, markFault);
    if marked.Failure? {
      return Fail500(marked.error.message);
    }
    resp := Response(200, true, ConversationPage(|messages|, otherUser.value.username, messages));
  }

  /** The conversation handed out still shows as unread every message the
      call itself marks read: row `i` is unread from the other user in the
      answer and read in the table afterwards. */
  lemma ReadBeforeMark(rows: seq<PrivateRow>, users: seq<Users.UserRow>, current: ReqUser, other: string, now: nat, i: nat)
    requires i < |rows| && UnreadBetween(Num(current.id), Str(other), rows[i])
    ensures var after := MarkAllAsReadStep(rows, Num(current.id), Str(other), now, None).rows;
            && rows[i].read == 0 && after[i] == MarkedRead(rows[i], now) && after[i].read == 1
            && Between(Num(current.id), Str(other), rows[i])
  {
  }

  /** `POST /api/messages/private`: 404 with no insert when the recipient
      is no user; otherwise the message is created with the caller as its
      sender and answered with 201. A rejected lookup or INSERT answers 500
      with nothing written; a rejected read-back answers 500 with the row
      stored. */
  method SendPrivateMessage(table: PrivateMessageTable, users: seq<Users.UserRow>, current: ReqUser,
                            recipientId: JsVal, content: JsVal, now: nat,
                            lookupFault: Option<DbError>, createFault: Option<DbError>, readFault: Option<DbError>)
    returns (resp: Response)
    requires table.Valid()
    modifies table
    ensures table.Valid()
    ensures lookupFault.Some? ==> resp == Fail500(lookupFault.value.message) && table.rows == old(table.rows)
    ensures lookupFault.None? && Users.FindById(users, RowKey(recipientId)).None? ==>
              resp == Response(404, false, Note(RecipientNotFoundNote))
              && table.rows == old(table.rows) && table.nextId == old(table.nextId)
    ensures lookupFault.None? && Users.FindById(users, RowKey(recipientId)).Some? ==>
              var s := CreateStep(old(table.rows), old(table.nextId), users, Num(current.id), recipientId, content, now, createFault, readFault);
              && table.rows == s.rows && table.nextId == s.nextId
              && resp == match s.result
                         case Failure(e) => Fail500(e.message)
                         case Success(m) => Response(201, true, PrivateCreated(m))
  {
    if lookupFault.Some? {
      return Fail500(lookupFault.value.message);
    }
    var recipient := Users.FindById(users, RowKey(recipientId));
    if recipient.None? {
      return Response(404, false, Note(RecipientNotFoundNote));
    }
    var created := table.Create(users, Num(current.id), recipientId, content, now, createFault, readFault);
    match created
    case Failure(e) => resp := Fail500(e.message);
    case Success(m) => resp := Response(201, true, PrivateCreated(m));
  }

  /** With a found recipient and content, the created row is sent by the
      caller to the recipient's id, unread. */
  lemma SendPrivateRow(rows: seq<PrivateRow>, nextId: int, users: seq<Users.UserRow>, current: ReqUser,
                       recipientId: JsVal, content: JsVal, now: nat)
    requires Users.FindById(users, RowKey(recipientId)).Some? && Bind(content) != Null
    ensures var s := CreateStep(rows, nextId, users, Num(current.id), recipientId, content, now, None, None);
            && s.result.Success?
            && s.rows[|s.rows| - 1].sender == Num(current.id)
            && s.rows[|s.rows| - 1].recipient == Num(Users.FindById(users, RowKey(recipientId)).value.id)
            && s.rows[|s.rows| - 1].read == 0
  {
  }

  // ---------------------------------------------------------------------
  // getUnreadMessages

  /** The fields of a message the tally reads, as JavaScript values. */
  datatype TallyInput = TallyInput(read: int, recipient: JsVal, sender: JsVal, senderUsername: JsVal)

  /** A message from `getUserMessages` as the tally sees it: `sender` and
      `recipient` are `{id, username}` objects and there is no
      `senderUsername` key. */
  function FieldsOf(m: PrivateMessage, ref: nat): (t: TallyInput)
    ensures t.recipient.Obj? && t.sender.Obj? && t.senderUsername == Undefined && t.read == m.read
  {
    TallyInput(m.read, Obj(2 * ref + 1), Obj(2 * ref), Undefined)
  }

  function FieldsOfAll(ms: seq<PrivateMessage>): (r: seq<TallyInput>)
    ensures |r| == |ms|
    ensures forall i :: 0 <= i < |ms| ==> r[i] == FieldsOf(ms[i], i)
  {
    if ms == [] then []
    else FieldsOfAll(ms[..|ms| - 1]) + [FieldsOf(ms[|ms| - 1], |ms| - 1)]
  }

  /** `message.read === 0 && message.recipient === req.user.id` */
  predicate Qualifies(caller: int, x: TallyInput) {
    x.read == 0 && StrictEq(x.recipient, Num(caller))
  }

  /** One `forEach` step; `None` when `message.sender.toString()` throws. */
  function TallyStep(m: JsMap.OrderedMap<string, SenderCount>, x: TallyInput, caller: int)
    : (r: Option<JsMap.OrderedMap<string, SenderCount>>)
    requires JsMap.Valid(m)
    ensures r.Some? ==> JsMap.Valid(r.value)
  {
    if !Qualifies(caller, x) then Some(m)
    else match KeyString(x.sender)
      case None => None
      case Some(k) =>
        var e := if k in m.entries then m.entries[k] else SenderCount(x.sender, x.senderUsername, 0);
        Some(JsMap.Set(m, k, e.(count := e.count + 1)))
  }

  /** `messageCounts` after the loop over `items`. */
  function Tally(items: seq<TallyInput>, caller: int): (r: Option<JsMap.OrderedMap<string, SenderCount>>)
    ensures r.Some? ==> JsMap.Valid(r.value)
    decreases |items|
  {
    if items == [] then Some(JsMap.Empty())
    else match Tally(items[..|items| - 1], caller)
      case None => None
      case Some(m) => TallyStep(m, items[|items| - 1], caller)
  }

  /** The qualifying messages whose sender has key `k`. */
  predicate InBucket(caller: int, k: string, x: TallyInput) {
    Qualifies(caller, x) && KeyString(x.sender) == Some(k)
  }

  /** The loop stops at the first throw. */
  lemma {:induction false} TallyThrowStays(items: seq<TallyInput>, caller: int, n: nat)
    requires n <= |items| && Tally(items[..n], caller).None?
    ensures Tally(items, caller).None?
    decreases |items| - n
  {
    if n < |items| {
      assert items[..n + 1][..n] == items[..n];
      TallyThrowStays(items, caller, n + 1);
    } else {
      assert items[..n] == items;
    }
  }

  /** The tally fails exactly when a qualifying message has no sender
      (`toString` of `null`). */
  lemma {:induction false} TallyThrows(items: seq<TallyInput>, caller: int)
    ensures Tally(items, caller).None? <==>
              exists i :: 0 <= i < |items| && Qualifies(caller, items[i]) && KeyString(items[i].sender).None?
    decreases |items|
  {
    if items != [] {
      var init := items[..|items| - 1];
      TallyThrows(init, caller);
      if Tally(init, caller).None? {
        var i :| 0 <= i < |init| && Qualifies(caller, init[i]) && KeyString(init[i].sender).None?;
        assert items[i] == init[i];
      } else {
        forall i | 0 <= i < |init| ensures !(Qualifies(caller, items[i]) && KeyString(items[i].sender).None?) {
          assert items[i] == init[i];
        }
      }
    }
  }

  /** Otherwise there is one bucket per sender key of the qualifying
      messages, and each counts exactly those messages. */
  lemma {:induction false} TallyCounts(items: seq<TallyInput>, caller: int)
    requires Tally(items, caller).Some?
    ensures var m := Tally(items, caller).value;
            && (forall k :: k in m.entries <==> exists i :: 0 <= i < |items| && InBucket(caller, k, items[i]))
            && (forall k :: k in m.entries ==> m.entries[k].count == Count(items, x => InBucket(caller, k, x)))
    decreases |items|
  {
    if items != [] {
      var init := items[..|items| - 1];
      TallyCounts(init, caller);
      assert init + [items[|items| - 1]] == items;
      TallyStepCounts(Tally(init, caller).value, items[|items| - 1], caller, init);
    }
  }

  lemma {:induction false} TallyStepCounts(m: JsMap.OrderedMap<string, SenderCount>, x: TallyInput, caller: int, init: seq<TallyInput>)
    requires JsMap.Valid(m) && TallyStep(m, x, caller).Some?
    requires forall k :: k in m.entries <==> exists i :: 0 <= i < |init| && InBucket(caller, k, init[i])
    requires forall k :: k in m.entries ==> m.entries[k].count == Count(init, y => InBucket(caller, k, y))
    ensures var r := TallyStep(m, x, caller).value;
            var items := init + [x];
            && (forall k :: k in r.entries <==> exists i :: 0 <= i < |items| && InBucket(caller, k, items[i]))
            && (forall k :: k in r.entries ==> r.entries[k].count == Count(items, y => InBucket(caller, k, y)))
  {
    var r := TallyStep(m, x, caller).value;
    var items := init + [x];
    forall k ensures Count(items, y => InBucket(caller, k, y)) ==
                     Count(init, y => InBucket(caller, k, y)) + (if InBucket(caller, k, x) then 1 else 0) {
      CountAppend(init, [x], y => InBucket(caller, k, y));
    }
    forall k ensures k in r.entries <==> exists i :: 0 <= i < |items| && InBucket(caller, k, items[i]) {
      if k in r.entries {
        if k in m.entries {
          var i :| 0 <= i < |init| && InBucket(caller, k, init[i]);
          assert items[i] == init[i];
        } else {
          assert InBucket(caller, k, items[|items| - 1]);
        }
      }
      if exists i :: 0 <= i < |items| && InBucket(caller, k, items[i]) {
        var i :| 0 <= i < |items| && InBucket(caller, k, items[i]);
        if i < |init| { assert init[i] == items[i]; }
      }
    }
    forall k | k in r.entries ensures r.entries[k].count == Count(items, y => InBucket(caller, k, y)) {
      if k !in m.entries {
        CountZero(init, y => InBucket(caller, k, y));
      }
    }
  }

  /** A message read back by `getUserMessages` never qualifies: its
      `recipient` is an object, never `===` a number. So the tally of such
      messages is always empty. */
  lemma {:induction false} TallyOfUserMessages(ms: seq<PrivateMessage>, caller: int)
    ensures Tally(FieldsOfAll(ms), caller) == Some(JsMap.Empty())
  {
    if ms != [] {
      var items := FieldsOfAll(ms);
      assert items[..|items| - 1] == FieldsOfAll(ms[..|ms| - 1]);
      TallyOfUserMessages(ms[..|ms| - 1], caller);
    }
  }

  /** `GET /api/messages/private/unread`: `totalCount` is the caller's
      unread count; `messageCounts` lists the tally's buckets in insertion
      order. */
  method GetUnreadMessages(rows: seq<PrivateRow>, users: seq<Users.UserRow>, current: ReqUser,
                           countFault: Option<DbError>, listFault: Option<DbError>)
    returns (resp: Response)
    ensures countFault.Some? ==> resp == Fail500(countFault.value.message)
    ensures countFault.None? && listFault.Some? ==> resp == Fail500(listFault.value.message)
    ensures countFault.None? && listFault.None? ==>
              && resp.status == 200 && resp.success && resp.body.UnreadSummary?
              && resp.body.totalCount == GetUnreadMessagesCount(rows, Num(current.id))
              && resp.body.messageCounts == []
  {
    if countFault.Some? {
      return Fail500(countFault.value.message);
    }
    var unreadCount := GetUnreadMessagesCount(rows, Num(current.id));
    if listFault.Some? {
      return Fail500(listFault.value.message);
    }
    var messages := GetUserMessages(rows, users, Num(current.id), ConversationLimit);
    var items := FieldsOfAll(messages);
    var counts := TallyLoop(items, current.id);
    TallyOfUserMessages(messages, current.id);
    match counts
    case None => resp := Fail500("Cannot read properties of null (reading 'toString')");
    case Some(m) => resp := Response(200, true, UnreadSummary(unreadCount, JsMap.Values(m)));
  }

  /** The `forEach` loop that builds `messageCounts`. */
  method TallyLoop(items: seq<TallyInput>, caller: int) returns (counts: Option<JsMap.OrderedMap<string, SenderCount>>)
    ensures counts == Tally(items, caller)
  {
    var m: JsMap.OrderedMap<string, SenderCount> := JsMap.OrderedMap([], map[]);
    var i := 0;
    while i < |items|
      invariant 0 <= i <= |items|
      invariant JsMap.Valid(m)
      invariant Tally(items[..i], caller) == Some(m)
    {
      TallyNext(items, caller, i);
      var next := TallyOne(m, items[i], caller);
      if next.None? {
        TallyThrowStays(items, caller, i + 1);
        return None;
      }
      m := next.value;
      i := i + 1;
    }
    assert items[..i] == items;
    return Some(m);
  }

  /** The body of the loop for one message: a qualifying message creates
      its sender's bucket if needed and then increments it. */
  method TallyOne(m: JsMap.OrderedMap<string, SenderCount>, x: TallyInput, caller: int)
    returns (r: Option<JsMap.OrderedMap<string, SenderCount>>)
    requires JsMap.Valid(m)
    ensures r == TallyStep(m, x, caller)
  {
    if !(x.read == 0 && StrictEq(x.recipient, Num(caller))) {
      return Some(m);
    }
    var senderId := KeyString(x.sender);
    if senderId.None? {
      return None;
    }
    var k := senderId.value;
    ghost var e := if k in m.entries then m.entries[k] else SenderCount(x.sender, x.senderUsername, 0);
    var after := m;
    if k !in after.entries {
      after := JsMap.Set(after, k, SenderCount(x.sender, x.senderUsername, 0));
    }
    after := JsMap.Set(after, k, after.entries[k].(count := after.entries[k].count + 1));
    TwoWrites(m, k, e, after);
    return Some(after);
  }

  lemma TallyNext(items: seq<TallyInput>, caller: int, i: nat)
    requires i < |items|
    ensures Tally(items[..i + 1], caller) ==
            match Tally(items[..i], caller)
            case None => None
            case Some(m) => TallyStep(m, items[i], caller)
  {
    assert items[..i + 1][..i] == items[..i];
  }

  /** Creating the bucket and then incrementing it is one `Set` of the
      incremented bucket. */
  lemma TwoWrites(before: JsMap.OrderedMap<string, SenderCount>, k: string, e: SenderCount, m: JsMap.OrderedMap<string, SenderCount>)
    requires JsMap.Valid(before)
    requires k in before.entries ==> e == before.entries[k]
    requires var mid := if k in before.entries then before else JsMap.Set(before, k, e);
             m == JsMap.Set(mid, k, mid.entries[k].(count := mid.entries[k].count + 1))
    ensures m == JsMap.Set(before, k, e.(count := e.count + 1))
  {
    if k !in before.entries {
      assert before.entries[k := e][k := e.(count := e.count + 1)] == before.entries[k := e.(count := e.count + 1)];
    }
  }

  /** `GET /api/messages/private/conversations` */
  function GetConversations(rows: seq<PrivateRow>, users: seq<Users.UserRow>, current: ReqUser, fault: Option<DbError>): (resp: Response)
    ensures fault.Some? ==> resp == Fail500(fault.value.message)
    ensures fault.None? ==>
              && resp.status == 200 && resp.success && resp.body.Conversations?
              && |resp.body.conversations| <= ConversationsLimit
  {
    if fault.Some? then Fail500(fault.value.message)
    else Response(200, true, Conversations(GetUserConversations(rows, users, Num(current.id), ConversationsLimit)))
  }

  /** The caller's conversations: at most 20, latest first, one per other
      participant. */
  lemma ConversationsResponse(rows: seq<PrivateRow>, users: seq<Users.UserRow>, current: ReqUser)
    ensures var resp := GetConversations(rows, users, current, None);
            var cs := resp.body.conversations;
            && resp.status == 200 && resp.success
            && |cs| <= ConversationsLimit
            && (forall i, j :: 0 <= i < j < |cs| ==> cs[i].lastMessageTime >= cs[j].lastMessageTime)
            && (forall i, j :: 0 <= i < j < |cs| ==> cs[i].userId != cs[j].userId)
  {
    UserConversationsShape(rows, users, Num(current.id), ConversationsLimit);
  }
}
