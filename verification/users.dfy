/** User accounts: a status with no enforced transition graph and a
    last-activity instant. */
module Users {
  import opened Base

  datatype UserStatus = Active | Suspended | Deleted

  datatype User = User(id: Uuid, lastActiveAt: Instant, username: string,
                       passwordHash: string, createdAt: Instant, status: UserStatus)

  /** The account proper: identifier, name, password hash and creation time. */
  predicate SameAccount(u: User, u': User) {
    && u'.id == u.id
    && u'.username == u.username
    && u'.passwordHash == u.passwordHash
    && u'.createdAt == u.createdAt
  }

  /** `set_status`: overwrite the status, whatever it was. No transition
      is forbidden: every status is reachable from every status. */
  function SetStatus(u: User, s: UserStatus): (r: User)
    ensures r.status == s
    ensures SameAccount(u, r) && r.lastActiveAt == u.lastActiveAt
  {
    u.(status := s)
  }

  /** `touch`: record `now` as the instant of last activity. */
  function Touch(u: User, now: Instant): (r: User)
    ensures r.lastActiveAt == now
    ensures SameAccount(u, r) && r.status == u.status
  {
    u.(lastActiveAt := now)
  }

  /** The last status set wins. */
  lemma SetStatusLastWins(u: User, s1: UserStatus, s2: UserStatus)
    ensures SetStatus(SetStatus(u, s1), s2) == SetStatus(u, s2)
  {
  }

  /** Setting the status and recording activity do not interfere. */
  lemma SetStatusTouchCommute(u: User, s: UserStatus, now: Instant)
    ensures SetStatus(Touch(u, now), s) == Touch(SetStatus(u, s), now)
  {
  }
}
