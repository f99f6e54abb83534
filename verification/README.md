# Messenger domain model in Dafny

A model of the in-memory domain layer of a messenger (`messenger/models.py`):
messages (plain, text and image variants), chats (plain, private and group variants) with
their append-only message logs and group member lists, user accounts,
sessions with lazy expiry, and notifications. Every entity is an immutable
datatype and every mutator is a pure function from the old value to the new
one. The clock is an explicit `now: Instant` parameter and identifiers are
128-bit values supplied by the caller.

| file | module | models |
|---|---|---|
| `base.dfy` | `Base` | identifiers (`Uuid`, 128-bit), instants, `Option` |
| `lists.dfy` | `Lists` | Python's `list.remove`, the first-occurrence position where it cuts, and the no-duplicates invariant |
| `messages.dfy` | `Messages` | `Message` as a sum type of `PlainMessage` (the base class), `TextMessage` and `ImageMessage`; `edit`, `delete` |
| `chats.dfy` | `Chats` | `Chat` as a sum type of `PlainChat` (the base class), `PrivateChat` and `GroupChat`; `send_message`, `add_member`, `remove_member` |
| `users.dfy` | `Users` | `User`, `UserStatus`; `set_status`, `touch` |
| `sessions.dfy` | `Sessions` | `Session`; `validate`, `terminate` |
| `notifications.dfy` | `Notifications` | `Notification`, `NotificationType`; `mark_read` |

Histories of operations (`Messages.ApplyAll`, `Chats.ApplyMemberOps`,
`Chats.SendAll`, `Sessions.Run`, `Sessions.ValidateEach`) fold the single-step
functions over a sequence, so that invariants of the form "once set, stays
set" and "no duplicates ever" can be stated over any number of calls.

The code enforces less than its data shapes suggest; the model follows the code:
- A private chat's two participants are not required to be distinct; nothing
  in the code checks it.
- A group chat's member list is free of duplicates only if it starts that way:
  the constructor accepts any list, and only `add_member` avoids duplicates.
  The no-duplicates results are therefore stated under that hypothesis.
- `Message` and `Chat` are concrete classes: a plain message or chat can be
  created and used. Editing a plain message only records the edit time, since
  neither variant test holds; a plain chat sends messages like the others.
- A chat's `last_message_at` equals the send time of the last logged message
  only after `send_message`; the constructor accepts any value.

## Model

| member | source | states |
|---|---|---|
| Messages.Edit | messenger/models.py:29-34 | the edit time becomes `now`; given new text, it becomes the text of a text message or the caption of an image message; with no new text, or on a plain message, the body is kept; id, send time, variant, image reference and deleted flag are kept |
| Messages.EditDeterminedByContract | messenger/models.py:29-34 | the properties above determine the edited message uniquely: no other field of it can change |
| Messages.EditLastWins | messenger/models.py:29-34 | two edits with the same text amount to one edit at the later instant |
| Messages.Delete | messenger/models.py:36-37 | the message is flagged deleted; identity, edit time and body are kept |
| Messages.DeleteIdempotent | messenger/models.py:36-37 | deleting twice equals deleting once |
| Messages.HistoryInvariants | messenger/models.py:22-37 | over any sequence of edits and deletes, the identity never changes, the deleted flag is true exactly when it was initially or a delete occurred (never reset), and the edit time is that of the last edit, or the original value if none |
| Lists.IndexOf | messenger/models.py:98 | the position where `list.remove` cuts: the first position holding the element, which is there and nowhere before |
| Lists.RemoveFirst | messenger/models.py:98 | `list.remove` shortens the list by exactly one |
| Lists.RemoveFirstMultiset | messenger/models.py:98 | `list.remove` takes exactly one copy of the element out of the list's multiset of contents and leaves the counts of all other elements unchanged |
| Lists.RemoveFirstCutsFirstOccurrence | messenger/models.py:98 | `list.remove` cuts out the first occurrence only: the elements before and after it keep their order |
| Lists.RemoveFirstNoDuplicates | messenger/models.py:96-98 | on a duplicate-free list, removal leaves the list duplicate-free and the element absent |
| Lists.IndexOfAppended | messenger/models.py:92-94 | an element appended to a list that lacked it is first found at the appended position |
| Chats.SendMessage | messenger/models.py:74-76 | the log grows by exactly one, the previous log is its prefix, the message is last, `last_message_at` is the message's send time, and no other chat field changes |
| Chats.SendAllAppends | messenger/models.py:74-76 | sending a batch appends exactly that batch, keeps every other field, and leaves `last_message_at` at the send time of the batch's last message (unchanged for an empty batch) |
| Chats.SendAllKeepsConsistent | messenger/models.py:71-76 | if `last_message_at` agrees with the log's last message (unset for an empty log), it still does after any sends |
| Chats.AddMember | messenger/models.py:92-94 | afterwards the user is a member; a present user leaves the list unchanged; an absent one is appended with the earlier members untouched; duplicate-freedom is preserved; only the member list changes |
| Chats.AddMemberIdempotent | messenger/models.py:92-94 | adding the same user twice equals adding once |
| Chats.RemoveMember | messenger/models.py:96-98 | an absent user leaves the list unchanged; a present one is removed once, at its first position, the list shrinks by one and the other members keep their order; only the member list changes |
| Chats.RemoveMemberKeepsNoDuplicates | messenger/models.py:96-98 | on a duplicate-free list the user is no longer a member afterwards and the list stays duplicate-free |
| Chats.RemoveMemberIdempotent | messenger/models.py:96-98 | on a duplicate-free list, removing twice equals removing once |
| Chats.RemoveUndoesAdd | messenger/models.py:92-98 | removing a user just added (who was absent) restores the chat exactly |
| Chats.AddUndoesRemove | messenger/models.py:92-98 | adding back a user just removed from a duplicate-free list restores the same members, duplicate-free |
| Chats.MembershipHistory | messenger/models.py:92-98 | from a duplicate-free list, any sequence of adds and removes keeps it duplicate-free, and a user is a member exactly when the last operation naming them was an add (or, if none did, when they were a member initially) |
| Chats.TeamScenario | messenger/models.py:86-94 | adding A, B, A to an empty group "Team" gives [A, B]; sending text "hi" at T1 gives log [hi] and last-message time T1; editing to "hi there" sets the text and edit time and leaves it undeleted |
| Users.SetStatus | messenger/models.py:110-111 | the status becomes the given one from any prior status; the account and last-activity time are unchanged |
| Users.Touch | messenger/models.py:113-114 | the last-activity time becomes `now`; the account and status are unchanged |
| Users.SetStatusLastWins | messenger/models.py:110-111 | of two status changes, the later one wins |
| Users.SetStatusTouchCommute | messenger/models.py:110-114 | setting the status and recording activity commute |
| Sessions.Validate | messenger/models.py:126-132 | the answer is true iff the session was active and `now` is before the expiry; afterwards the session is active iff the answer was true; no other field changes |
| Sessions.ValidateOnlyDeactivates | messenger/models.py:126-132 | validation never turns an inactive session active, and a true answer leaves the session as it was |
| Sessions.ExpiredSessionFails | messenger/models.py:126-131 | an active session whose expiry is one tick in the past answers false and is deactivated |
| Sessions.Terminate | messenger/models.py:134-135 | the session becomes inactive; no other field changes |
| Sessions.ValidateEach | messenger/models.py:126-132 | successive validations give one answer per call, and the k-th is true iff the session started active and each of the first k + 1 instants was before the expiry |
| Sessions.InactiveAnswersFalse | messenger/models.py:127-128 | an inactive session answers false to every later validation at any instants |
| Sessions.TerminateIsFinal | messenger/models.py:134-135 | after termination, every later validation answers false |
| Sessions.RunKeepsActiveOnlyBeforeExpiry | messenger/models.py:126-135 | over any sequence of validations and terminations the other fields never change, and the session is still active iff it started active and every operation was a validation before the expiry instant (no way back from inactive) |
| Notifications.MarkRead | messenger/models.py:153-154 | the notification is read; id, type and creation time are unchanged |
| Notifications.MarkReadIdempotent | messenger/models.py:153-154 | marking twice equals marking once, and an already-read notification is unchanged |

## Left out

- `Attachment`, `MediaFile` and `Authentication` (messenger/models.py:51-64, 138-143): plain records with no behaviour; no operation of the model needs them.
- Default factories: random identifiers (`uuid.uuid4`) and the current time (`datetime.utcnow`) are parameters instead; the one-hour default expiry of a new session (messenger/models.py:123) is not modelled.
- The string labels of `UserStatus` and `NotificationType` (messenger/models.py:10-19): the enumerations are plain three-constructor datatypes.
- Object sharing: in Python a `Message` object in a chat's list is the same object a caller may later edit or delete; the model treats messages as values, so editing a logged message is a separate replacement the code does not perform.
- Timestamps are integers; `datetime` resolution and time zones are not modelled.
