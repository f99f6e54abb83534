/** Sessions: a credential that is active until it is terminated or is seen
    to have expired. Expiry is lazy: it is only noticed when the session is
    validated, and validating can therefore change the session. */
module Sessions {
  import opened Base

  datatype Session = Session(id: Uuid, userId: Uuid, accessToken: string,
                             createdAt: Instant, expiresAt: Instant, isActive: bool)

  /** Every field except the active flag. */
  predicate SameCredentials(s: Session, s': Session) {
    && s'.id == s.id
    && s'.userId == s.userId
    && s'.accessToken == s.accessToken
    && s'.createdAt == s.createdAt
    && s'.expiresAt == s.expiresAt
  }

  /** `validate` at instant `now`: the answer, and the session afterwards.
      An inactive session answers false. An active one answers true before
      its expiry; from the expiry instant on it is deactivated and answers
      false. */
  function Validate(s: Session, now: Instant): (res: (bool, Session))
    ensures res.0 <==> s.isActive && now < s.expiresAt
    ensures res.1.isActive == res.0
    ensures SameCredentials(s, res.1)
  {
    if !s.isActive then (false, s)
    else if now >= s.expiresAt then (false, s.(isActive := false))
    else (true, s)
  }

  /** `terminate`: deactivate unconditionally. */
  function Terminate(s: Session): (r: Session)
    ensures !r.isActive
    ensures SameCredentials(s, r)
  {
    s.(isActive := false)
  }

  /** Validation never revives a session, and a true answer leaves it as it
      was. */
  lemma ValidateOnlyDeactivates(s: Session, now: Instant)
    ensures Validate(s, now).1.isActive ==> s.isActive
    ensures Validate(s, now).0 ==> Validate(s, now).1 == s
  {
  }

  /** A session whose expiry has already passed fails its first validation
      and is inactive afterwards. */
  lemma ExpiredSessionFails(s: Session, now: Instant)
    requires s.isActive && s.expiresAt == now - 1
    ensures Validate(s, now) == (false, s.(isActive := false))
  {
  }

  /** The answers of successive validations at the instants `nows`: the k-th
      is true exactly when the session started active and none of the first
      k + 1 instants had reached the expiry. */
  function ValidateEach(s: Session, nows: seq<Instant>): (answers: seq<bool>)
    ensures |answers| == |nows|
    ensures forall k :: 0 <= k < |nows| ==>
              (answers[k] <==> s.isActive && forall j :: 0 <= j <= k ==> nows[j] < s.expiresAt)
    decreases |nows|
  {
    if |nows| == 0 then []
    else
      var (ok, s') := Validate(s, nows[0]);
      [ok] + ValidateEach(s', nows[1..])
  }

  /** An inactive session answers false to every later validation, at any
      instants. */
  lemma {:induction false} InactiveAnswersFalse(s: Session, nows: seq<Instant>)
    requires !s.isActive
    ensures forall k :: 0 <= k < |nows| ==> !ValidateEach(s, nows)[k]
    decreases |nows|
  {
    if |nows| != 0 {
      InactiveAnswersFalse(Validate(s, nows[0]).1, nows[1..]);
    }
  }

  /** After `terminate`, every later validation answers false. */
  lemma TerminateIsFinal(s: Session, nows: seq<Instant>)
    ensures forall k :: 0 <= k < |nows| ==> !ValidateEach(Terminate(s), nows)[k]
  {
    InactiveAnswersFalse(Terminate(s), nows);
  }

  /** The operations a session undergoes. */
  datatype SessionOp = ValidateAt(now: Instant) | TerminateOp

  function Step(s: Session, op: SessionOp): Session {
    match op
    case ValidateAt(now) => Validate(s, now).1
    case TerminateOp => Terminate(s)
  }

  /** The session after the operations `ops`, in order. */
  function Run(s: Session, ops: seq<SessionOp>): Session
    decreases |ops|
  {
    if |ops| == 0 then s else Step(Run(s, ops[..|ops| - 1]), ops[|ops| - 1])
  }

  /** Over any history, the credentials never change, and the session is
      still active exactly when it started active and every operation was a
      validation before the expiry instant: once inactive, there is no way
      back. */
  lemma {:induction false} RunKeepsActiveOnlyBeforeExpiry(s: Session, ops: seq<SessionOp>)
    ensures SameCredentials(s, Run(s, ops))
    ensures Run(s, ops).isActive <==>
              s.isActive && forall j :: 0 <= j < |ops| ==> ops[j].ValidateAt? && ops[j].now < s.expiresAt
    decreases |ops|
  {
    if |ops| != 0 {
      var init := ops[..|ops| - 1];
      RunKeepsActiveOnlyBeforeExpiry(s, init);
      assert forall j :: 0 <= j < |init| ==> init[j] == ops[j];
    }
  }
}
