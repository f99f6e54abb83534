/** Notifications: inbox entries tagged by kind, with a one-way read flag. */
module Notifications {
  import opened Base

  datatype NotificationType = Message | Invite | System

  datatype Notification = Notification(id: Uuid, notificationType: NotificationType,
                                       createdAt: Instant, isRead: bool)

  /** `mark_read`: the notification is read; nothing else changes. */
  function MarkRead(n: Notification): (r: Notification)
    ensures r.isRead
    ensures r.id == n.id && r.notificationType == n.notificationType && r.createdAt == n.createdAt
  {
    n.(isRead := true)
  }

  /** Marking as read twice is marking once, and a read notification is
      left exactly as it is. */
  lemma MarkReadIdempotent(n: Notification)
    ensures MarkRead(MarkRead(n)) == MarkRead(n)
    ensures n.isRead ==> MarkRead(n) == n
  {
  }
}
