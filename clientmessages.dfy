/** What the browser pages hold and send: public messages as the client's
    records, the socket events and REST requests a page issues, how
    `axios` treats a reply, and the list reducers the public chat page and
    the admin dashboard share. */
module ClientMessages {
  import opened Js
  import opened Seqs
  import Messages
  import Http

  /** `message.sender` as the pages read it: its `id` and its `_id`. */
  datatype SenderRef = SenderRef(id: JsVal, objectId: JsVal)

  /** A message record in component state: `id`, `_id`, `sender`,
      `content` and the client's own `isPending` flag. The server never
      sends an `_id` key, so `objectId` is `undefined` for its messages. */
  datatype ClientMessage = ClientMessage(id: JsVal, objectId: JsVal, sender: SenderRef, content: JsVal, isPending: bool)

  /** A server message as the client receives it. */
  function FromServer(f: Messages.Formatted): (c: ClientMessage)
    ensures c.objectId == Undefined && c.sender.objectId == Undefined && !c.isPending
    ensures c.id == Num(f.id) && c.sender.id == f.sender.id && c.content == f.content
  {
    ClientMessage(Num(f.id), Undefined, SenderRef(f.sender.id, Undefined), f.content, false)
  }

  function FromServerAll(fs: seq<Messages.Formatted>): (r: seq<ClientMessage>)
    ensures |r| == |fs|
    ensures forall i :: 0 <= i < |fs| ==> r[i] == FromServer(fs[i])
  {
    if fs == [] then [] else [FromServer(fs[0])] + FromServerAll(fs[1..])
  }

  /** No entry of the list has an `_id`, as for every list built from
      server messages and the chat page's own pending entries. */
  predicate NoObjectIds(list: seq<ClientMessage>) {
    forall i :: 0 <= i < |list| ==> list[i].objectId == Undefined
  }

  lemma FromServerAllNoObjectIds(fs: seq<Messages.Formatted>)
    ensures NoObjectIds(FromServerAll(fs))
  {
  }

  // ---------------------------------------------------------------------
  // The `some`-then-append reducer (`approved_message`, `pending_approval`)

  /** `msg.id === m.id || msg._id === m._id` */
  predicate SameMessage(a: ClientMessage, b: ClientMessage) {
    StrictEq(a.id, b.id) || StrictEq(a.objectId, b.objectId)
  }

  /** `list.some(msg => SameMessage(msg, m))` */
  predicate Listed(list: seq<ClientMessage>, m: ClientMessage) {
    exists i | 0 <= i < |list| :: SameMessage(list[i], m)
  }

  /** `exists ? list : [...list, m]` */
  function AppendNew(list: seq<ClientMessage>, m: ClientMessage): (r: seq<ClientMessage>)
    ensures r == list || r == list + [m]
    ensures r == list <==> Listed(list, m)
  {
    if Listed(list, m) then list else list + [m]
  }

  /** The list either stays or grows by `m` at the end, the latter exactly
      when no entry matched; a message whose `id` or `_id` is not NaN is
      listed afterwards. */
  lemma AppendNewResult(list: seq<ClientMessage>, m: ClientMessage)
    ensures AppendNew(list, m) == list + [m] <==> !Listed(list, m)
    ensures Listed(list, m) ==> AppendNew(list, m) == list
    ensures !m.id.NaN? || !m.objectId.NaN? ==> Listed(AppendNew(list, m), m)
  {
    if !Listed(list, m) {
      var r := AppendNew(list, m);
      assert r[|list|] == m;
      if !m.id.NaN? || !m.objectId.NaN? {
        assert SameMessage(r[|list|], m);
      }
    } else {
      assert |AppendNew(list, m)| == |list|;
    }
  }

  /** Without `_id`s, `undefined === undefined` makes every entry match:
      the message is appended only to an empty list. */
  lemma AppendNewWithoutObjectIds(list: seq<ClientMessage>, m: ClientMessage)
    requires NoObjectIds(list) && m.objectId == Undefined
    ensures AppendNew(list, m) == if list == [] then [m] else list
  {
    if list != [] {
      assert SameMessage(list[0], m);
    }
  }

  // ---------------------------------------------------------------------
  // Filters

  /** `msg.id !== m.id && msg._id !== m._id`: what `approved_message`
      keeps. */
  predicate KeptAfterApproval(m: ClientMessage, x: ClientMessage) {
    !StrictEq(x.id, m.id) && !StrictEq(x.objectId, m.objectId)
  }

  function DropApproved(list: seq<ClientMessage>, m: ClientMessage): (r: seq<ClientMessage>)
    ensures |r| <= |list|
    ensures forall x :: x in r <==> x in list && KeptAfterApproval(m, x)
  {
    Filter(list, x => KeptAfterApproval(m, x))
  }

  /** An entry survives exactly when neither its `id` nor its `_id`
      equals the message's; survivors keep their order. */
  lemma DropApprovedExact(list: seq<ClientMessage>, m: ClientMessage)
    ensures forall x :: x in DropApproved(list, m) <==> x in list && !StrictEq(x.id, m.id) && !StrictEq(x.objectId, m.objectId)
    ensures multiset(DropApproved(list, m)) <= multiset(list)
  {
    FilterIsSubsequence(list, x => KeptAfterApproval(m, x));
  }

  /** Without `_id`s the second test is always false, so the whole list
      goes. */
  lemma {:induction false} DropApprovedClears(list: seq<ClientMessage>, m: ClientMessage)
    requires NoObjectIds(list) && m.objectId == Undefined
    ensures DropApproved(list, m) == []
  {
    if list != [] {
      assert !KeptAfterApproval(m, list[0]);
      DropApprovedClears(list[1..], m);
    }
  }

  /** `msg.id !== id && msg._id !== id`: what a rejection or a successful
      REST call keeps. */
  predicate KeptAfterRemoval(id: JsVal, x: ClientMessage) {
    !StrictEq(x.id, id) && !StrictEq(x.objectId, id)
  }

  function DropId(list: seq<ClientMessage>, id: JsVal): (r: seq<ClientMessage>)
    ensures |r| <= |list|
    ensures forall x :: x in r <==> x in list && KeptAfterRemoval(id, x)
  {
    Filter(list, x => KeptAfterRemoval(id, x))
  }

  /** Exactly the entries whose `id` or `_id` is the id go; the others
      stay in order, and the list shrinks by the number of those that go. */
  lemma DropIdExact(list: seq<ClientMessage>, id: JsVal)
    ensures forall x :: x in DropId(list, id) <==> x in list && !(StrictEq(x.id, id) || StrictEq(x.objectId, id))
    ensures multiset(DropId(list, id)) <= multiset(list)
    ensures |DropId(list, id)| + Count(list, x => !KeptAfterRemoval(id, x)) == |list|
  {
    FilterIsSubsequence(list, x => KeptAfterRemoval(id, x));
    DropIdCount(list, id);
  }

  lemma {:induction false} DropIdCount(list: seq<ClientMessage>, id: JsVal)
    ensures |DropId(list, id)| + Count(list, x => !KeptAfterRemoval(id, x)) == |list|
  {
    if list != [] {
      DropIdCount(list[1..], id);
    }
  }

  /** For a numeric id and entries without `_id`, exactly the entries with
      that `id` go. */
  lemma DropIdWithoutObjectIds(list: seq<ClientMessage>, n: int)
    requires NoObjectIds(list)
    ensures forall x :: x in DropId(list, Num(n)) <==> x in list && x.id != Num(n)
  {
    forall x | x in list ensures x.objectId == Undefined {
      var i :| 0 <= i < |list| && list[i] == x;
    }
  }

  // ---------------------------------------------------------------------
  // How `axios` sees a reply

  /** An awaited request either gets a response or fails without one. */
  type Reply = Option<Http.Response>

  /** `axios` rejects the promise when there is no response or when its
      status is not 2xx; the handler's `catch` then runs. */
  predicate Throws(r: Reply) {
    r.None? || !(200 <= r.value.status < 300)
  }

  /** `response.data.success` of a reply that did not throw. */
  predicate Succeeded(r: Reply) {
    !Throws(r) && r.value.success
  }

  // ---------------------------------------------------------------------
  // The input box

  /** `newMessage.trim()` when it is not blank; a blank input sends
      nothing. */
  function Draft(input: string): (r: Option<string>)
    ensures r.None? <==> forall k :: 0 <= k < |input| ==> IsJsSpace(input[k])
    ensures r.Some? ==> r.value == Trim(input) && r.value != []
    ensures r.Some? ==> !IsJsSpace(r.value[0]) && !IsJsSpace(r.value[|r.value| - 1])
  {
    TrimBlank(input);
    TrimEnds(input);
    if Trim(input) == "" then None else Some(Trim(input))
  }

  // ---------------------------------------------------------------------
  // What the pages send

  const UserConnectedEvent := "user_connected"
  const SendPublicEvent := "send_public_message"
  const SendPrivateEvent := "send_private_message"
  const ApproveEvent := "approve_message"
  const RejectEvent := "reject_message"

  /** The client-side name of the rejection event the pages listen for. */
  const MessageRejectedEvent := "message_rejected"

  datatype Outgoing =
    | UserIdArg(userId: JsVal)
    | PublicDraft(sender: JsVal, content: JsVal)
    | PrivateDraft(sender: JsVal, recipient: JsVal, content: JsVal)
    | MessageIdArg(messageId: JsVal)

  /** A socket emit or a REST request (`PUT` with an optional
      `{isAdmin}` body, or `DELETE`). */
  datatype Request =
    | Emit(name: string, payload: Outgoing)
    | Put(path: string, isAdmin: Option<bool>)
    | Delete(path: string)

  /** The user the pages know from the login session. */
  datatype ClientUser = ClientUser(id: int, username: string, isAdmin: bool)
}
