/** Chats: a closed hierarchy of a plain chat (the base class, which can
    itself be instantiated), a private chat between two users and a group
    chat with a member list. All own an ordered, append-only message log. */
module Chats {
  import opened Base
  import opened Messages
  import opened Lists

  datatype Chat =
    | PlainChat(id: Uuid, createdAt: Instant, lastMessageAt: Option<Instant>,
                messages: seq<Message>)
    | PrivateChat(id: Uuid, createdAt: Instant, lastMessageAt: Option<Instant>,
                  messages: seq<Message>, user1Id: Uuid, user2Id: Uuid)
    | GroupChat(id: Uuid, createdAt: Instant, lastMessageAt: Option<Instant>,
                messages: seq<Message>, title: string, description: string,
                avatarUrl: string, memberIds: seq<Uuid>)

  /** The time of the last message is the send time of the most recently
      appended message, and unset while the log is empty. */
  predicate LastMessageConsistent(c: Chat) {
    if |c.messages| == 0 then c.lastMessageAt.None?
    else c.lastMessageAt == Some(c.messages[|c.messages| - 1].sentAt)
  }

  /** Everything except the message log and the time of the last message. */
  predicate SameHeader(c: Chat, c': Chat) {
    && c'.id == c.id
    && c'.createdAt == c.createdAt
    && (c.PlainChat? ==> c'.PlainChat?)
    && (c.PrivateChat? ==> c'.PrivateChat? && c'.user1Id == c.user1Id && c'.user2Id == c.user2Id)
    && (c.GroupChat? ==> c'.GroupChat? && c'.title == c.title && c'.description == c.description
                         && c'.avatarUrl == c.avatarUrl && c'.memberIds == c.memberIds)
  }

  /** Everything except the member list of a group chat. */
  predicate SameExceptMembers(c: Chat, c': Chat)
    requires c.GroupChat?
  {
    c'.GroupChat? && c' == c.(memberIds := c'.memberIds)
  }

  /** Append `m` to the log and record its send time as the time of the last
      message. No check is made against the send times already logged. */
  function SendMessage(c: Chat, m: Message): (r: Chat)
    ensures SameHeader(c, r)
    ensures |r.messages| == |c.messages| + 1
    ensures r.messages[..|c.messages|] == c.messages
    ensures r.messages[|c.messages|] == m
    ensures r.lastMessageAt == Some(m.sentAt)
    ensures LastMessageConsistent(r)
  {
    c.(messages := c.messages + [m], lastMessageAt := Some(m.sentAt))
  }

  /** The chat after sending each of `ms`, in order. */
  function SendAll(c: Chat, ms: seq<Message>): Chat
    decreases |ms|
  {
    if |ms| == 0 then c else SendAll(SendMessage(c, ms[0]), ms[1..])
  }

  /** Sending a batch of messages appends exactly that batch to the log, keeps
      the header, and leaves the time of the last message at the send time of
      the batch's last message (untouched for an empty batch). */
  lemma {:induction false} SendAllAppends(c: Chat, ms: seq<Message>)
    ensures SameHeader(c, SendAll(c, ms))
    ensures SendAll(c, ms).messages == c.messages + ms
    ensures |ms| == 0 ==> SendAll(c, ms).lastMessageAt == c.lastMessageAt
    ensures |ms| != 0 ==> SendAll(c, ms).lastMessageAt == Some(ms[|ms| - 1].sentAt)
    decreases |ms|
  {
    if |ms| != 0 {
      var c' := SendMessage(c, ms[0]);
      SendAllAppends(c', ms[1..]);
      assert c.messages + ms == c'.messages + ms[1..] by {
        assert ms == [ms[0]] + ms[1..];
      }
    }
  }

  /** Sending keeps the time of the last message consistent with the log. */
  lemma SendAllKeepsConsistent(c: Chat, ms: seq<Message>)
    requires LastMessageConsistent(c)
    ensures LastMessageConsistent(SendAll(c, ms))
  {
    SendAllAppends(c, ms);
    var r := SendAll(c, ms);
    if |ms| != 0 {
      assert r.messages[|r.messages| - 1] == ms[|ms| - 1];
    }
  }

  /** `add_member`: append the user unless already a member. */
  function AddMember(c: Chat, u: Uuid): (r: Chat)
    requires c.GroupChat?
    ensures r.GroupChat? && SameExceptMembers(c, r)
    ensures u in r.memberIds
    ensures u in c.memberIds ==> r.memberIds == c.memberIds
    ensures u !in c.memberIds ==>
              && |r.memberIds| == |c.memberIds| + 1
              && r.memberIds[..|c.memberIds|] == c.memberIds
              && r.memberIds[|c.memberIds|] == u
    ensures NoDuplicates(c.memberIds) ==> NoDuplicates(r.memberIds)
  {
    if u !in c.memberIds then c.(memberIds := c.memberIds + [u]) else c
  }

  /** `remove_member`: remove the user if a member (Python's `list.remove`,
      which drops the first occurrence only). */
  function RemoveMember(c: Chat, u: Uuid): (r: Chat)
    requires c.GroupChat?
    ensures r.GroupChat? && SameExceptMembers(c, r)
    ensures u !in c.memberIds ==> r.memberIds == c.memberIds
    ensures u in c.memberIds ==>
              && |r.memberIds| == |c.memberIds| - 1
              && multiset(r.memberIds) == multiset(c.memberIds) - multiset{u}
    ensures u in c.memberIds ==>
              var i := IndexOf(c.memberIds, u);
              r.memberIds == c.memberIds[..i] + c.memberIds[i + 1..]
  {
    if u in c.memberIds then
      RemoveFirstCutsFirstOccurrence(c.memberIds, u);
      RemoveFirstMultiset(c.memberIds, u);
      c.(memberIds := RemoveFirst(c.memberIds, u))
    else c
  }

  /** On a duplicate-free member list, removing a user removes them
      altogether and keeps the list duplicate-free. */
  lemma RemoveMemberKeepsNoDuplicates(c: Chat, u: Uuid)
    requires c.GroupChat? && NoDuplicates(c.memberIds)
    ensures NoDuplicates(RemoveMember(c, u).memberIds)
    ensures u !in RemoveMember(c, u).memberIds
  {
    if u in c.memberIds {
      RemoveFirstNoDuplicates(c.memberIds, u);
    }
  }

  /** Adding the same user twice is adding them once. */
  lemma AddMemberIdempotent(c: Chat, u: Uuid)
    requires c.GroupChat?
    ensures AddMember(AddMember(c, u), u) == AddMember(c, u)
  {
  }

  /** On a duplicate-free member list, removing the same user twice is
      removing them once. (With a duplicate, the second call removes the
      second copy.) */
  lemma RemoveMemberIdempotent(c: Chat, u: Uuid)
    requires c.GroupChat? && NoDuplicates(c.memberIds)
    ensures RemoveMember(RemoveMember(c, u), u) == RemoveMember(c, u)
  {
    RemoveMemberKeepsNoDuplicates(c, u);
  }

  /** Removing a user who was just added restores the chat exactly. */
  lemma RemoveUndoesAdd(c: Chat, u: Uuid)
    requires c.GroupChat? && u !in c.memberIds
    ensures RemoveMember(AddMember(c, u), u) == c
  {
    var ms := c.memberIds;
    IndexOfAppended(ms, u);
    assert (ms + [u])[..|ms|] == ms;
  }

  /** Adding back a user who was just removed from a duplicate-free list
      restores the same members (the user moves to the end). */
  lemma AddUndoesRemove(c: Chat, u: Uuid)
    requires c.GroupChat? && NoDuplicates(c.memberIds) && u in c.memberIds
    ensures multiset(AddMember(RemoveMember(c, u), u).memberIds) == multiset(c.memberIds)
    ensures NoDuplicates(AddMember(RemoveMember(c, u), u).memberIds)
  {
    RemoveMemberKeepsNoDuplicates(c, u);
  }

  /** The membership operations of a group chat. */
  datatype MemberOp = AddOp(user: Uuid) | RemoveOp(user: Uuid)

  function ApplyMemberOp(c: Chat, op: MemberOp): (r: Chat)
    requires c.GroupChat?
    ensures r.GroupChat?
  {
    match op
    case AddOp(u) => AddMember(c, u)
    case RemoveOp(u) => RemoveMember(c, u)
  }

  /** The group chat after the membership operations `ops`, in order. */
  function ApplyMemberOps(c: Chat, ops: seq<MemberOp>): (r: Chat)
    requires c.GroupChat?
    ensures r.GroupChat?
    decreases |ops|
  {
    if |ops| == 0 then c else ApplyMemberOp(ApplyMemberOps(c, ops[..|ops| - 1]), ops[|ops| - 1])
  }

  /** What the last operation in `ops` that names `u` decided: `Some(true)`
      for an add, `Some(false)` for a remove, `None` if no operation names `u`. */
  function LastDecision(ops: seq<MemberOp>, u: Uuid): Option<bool>
    decreases |ops|
  {
    if |ops| == 0 then None
    else if ops[|ops| - 1].user == u then Some(ops[|ops| - 1].AddOp?)
    else LastDecision(ops[..|ops| - 1], u)
  }

  /** Starting from a duplicate-free member list, any sequence of adds and
      removes keeps it duplicate-free, and a user is a member afterwards
      exactly when the last operation naming them was an add (or, if none
      named them, when they were a member to begin with). */
  lemma {:induction false} MembershipHistory(c: Chat, ops: seq<MemberOp>, u: Uuid)
    requires c.GroupChat? && NoDuplicates(c.memberIds)
    ensures NoDuplicates(ApplyMemberOps(c, ops).memberIds)
    ensures u in ApplyMemberOps(c, ops).memberIds <==>
              if LastDecision(ops, u).Some? then LastDecision(ops, u).value else u in c.memberIds
    decreases |ops|
  {
    if |ops| != 0 {
      var init := ops[..|ops| - 1];
      var op := ops[|ops| - 1];
      var before := ApplyMemberOps(c, init);
      MembershipHistory(c, init, u);
      MembershipHistory(c, init, op.user);
      if op.RemoveOp? {
        RemoveMemberKeepsNoDuplicates(before, op.user);
      }
    }
  }

  /** Adding A, B and A again to an empty group chat titled "Team" leaves
      exactly [A, B]; sending a text "hi" at T1 logs it and sets the time of
      the last message to T1; editing it to "hi there" replaces the text,
      records the edit time and leaves it undeleted. */
  lemma TeamScenario(chatId: Uuid, created: Instant, a: Uuid, b: Uuid,
                     msgId: Uuid, t1: Instant, t2: Instant)
    requires a != b
    ensures
      var empty := GroupChat(chatId, created, None, [], "Team", "", "", []);
      var team := AddMember(AddMember(AddMember(empty, a), b), a);
      var hi := TextMessage(msgId, t1, None, false, "hi");
      var sent := SendMessage(team, hi);
      var edited := Edit(hi, t2, Some("hi there"));
      && team.memberIds == [a, b]
      && sent.lastMessageAt == Some(t1)
      && sent.messages == [hi]
      && edited.text == "hi there"
      && edited.editedAt == Some(t2)
      && !edited.isDeleted
  {
  }
}
