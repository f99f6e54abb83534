/** Messages: a closed hierarchy of a plain message (the base class, which
    can itself be instantiated) and its two variants, all sharing an
    identity, a send time, an optional edit time and a soft-delete flag. */
module Messages {
  import opened Base

  datatype Message =
    | PlainMessage(id: Uuid, sentAt: Instant, editedAt: Option<Instant>, isDeleted: bool)
    | TextMessage(id: Uuid, sentAt: Instant, editedAt: Option<Instant>, isDeleted: bool,
                  text: string)
    | ImageMessage(id: Uuid, sentAt: Instant, editedAt: Option<Instant>, isDeleted: bool,
                   imageId: Uuid, caption: string)

  /** The part of a message an edit replaces: the text of a text message,
      the caption of an image message; a plain message has none. */
  function Body(m: Message): Option<string> {
    match m
    case PlainMessage(_, _, _, _) => None
    case TextMessage(_, _, _, _, text) => Some(text)
    case ImageMessage(_, _, _, _, _, caption) => Some(caption)
  }

  /** The fields no operation on a message ever changes: the identifier, the
      send time, the variant and, for an image, the image it refers to. */
  predicate SameIdentity(m: Message, m': Message) {
    && m'.id == m.id
    && m'.sentAt == m.sentAt
    && m'.PlainMessage? == m.PlainMessage?
    && m'.TextMessage? == m.TextMessage?
    && (m.ImageMessage? && m'.ImageMessage? ==> m'.imageId == m.imageId)
  }

  /** Edit at instant `now`: the edit time becomes `now`; when new text is
      given it replaces the text of a text message or the caption of an
      image message. A plain message only gets its edit time. */
  function Edit(m: Message, now: Instant, newText: Option<string>): (r: Message)
    ensures SameIdentity(m, r)
    ensures r.editedAt == Some(now)
    ensures r.isDeleted == m.isDeleted
    ensures newText.Some? && !m.PlainMessage? ==> Body(r) == newText
    ensures newText.None? || m.PlainMessage? ==> Body(r) == Body(m)
  {
    var m' := m.(editedAt := Some(now));
    match newText
    case None => m'
    case Some(t) =>
      match m'
      case PlainMessage(_, _, _, _) => m'
      case TextMessage(_, _, _, _, _) => m'.(text := t)
      case ImageMessage(_, _, _, _, _, _) => m'.(caption := t)
  }

  /** Soft delete: the message is flagged as deleted and nothing else moves. */
  function Delete(m: Message): (r: Message)
    ensures r.isDeleted
    ensures SameIdentity(m, r)
    ensures r.editedAt == m.editedAt && Body(r) == Body(m)
  {
    m.(isDeleted := true)
  }

  /** The contract of `Edit` pins its result down completely: any message
      meeting it is the edited message. */
  lemma EditDeterminedByContract(m: Message, now: Instant, newText: Option<string>, r: Message)
    requires SameIdentity(m, r)
    requires r.editedAt == Some(now)
    requires r.isDeleted == m.isDeleted
    requires Body(r) == (if newText.Some? && !m.PlainMessage? then newText else Body(m))
    ensures r == Edit(m, now, newText)
  {
  }

  /** Deleting twice is deleting once. */
  lemma DeleteIdempotent(m: Message)
    ensures Delete(Delete(m)) == Delete(m)
  {
  }

  /** Only the last edit counts: editing twice with the same text is one edit
      at the later instant. */
  lemma EditLastWins(m: Message, t1: Instant, t2: Instant, newText: Option<string>)
    ensures Edit(Edit(m, t1, newText), t2, newText) == Edit(m, t2, newText)
  {
  }

  /** The operations a message undergoes after it is sent. */
  datatype MessageOp = EditOp(now: Instant, newText: Option<string>) | DeleteOp

  function Apply(m: Message, op: MessageOp): Message {
    match op
    case EditOp(now, newText) => Edit(m, now, newText)
    case DeleteOp => Delete(m)
  }

  /** The message after the operations `ops`, applied in order. */
  function ApplyAll(m: Message, ops: seq<MessageOp>): Message
    decreases |ops|
  {
    if |ops| == 0 then m else Apply(ApplyAll(m, ops[..|ops| - 1]), ops[|ops| - 1])
  }

  /** The instant of the last edit among `ops`, if there is one. */
  function LastEdit(ops: seq<MessageOp>): Option<Instant>
    decreases |ops|
  {
    if |ops| == 0 then None
    else if ops[|ops| - 1].EditOp? then Some(ops[|ops| - 1].now)
    else LastEdit(ops[..|ops| - 1])
  }

  /** Over any history of edits and deletes: the identity never changes, the
      deleted flag is set exactly when the message was deleted before or a
      delete happened (so it never goes back to false), and the edit time is
      that of the last edit, or the original one when there was no edit. */
  lemma {:induction false} HistoryInvariants(m: Message, ops: seq<MessageOp>)
    ensures SameIdentity(m, ApplyAll(m, ops))
    ensures ApplyAll(m, ops).isDeleted <==> m.isDeleted || DeleteOp in ops
    ensures ApplyAll(m, ops).editedAt == (if LastEdit(ops).Some? then LastEdit(ops) else m.editedAt)
    decreases |ops|
  {
    if |ops| != 0 {
      var init := ops[..|ops| - 1];
      HistoryInvariants(m, init);
      assert ops == init + [ops[|ops| - 1]];
    }
  }
}
