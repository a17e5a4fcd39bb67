/** Properties of short sequences of issuances, verifications and timer
    firings on one store, including the two places where the store's
    behaviour depends on the order of events: a stale expiry timer deletes a
    newer entry, and a failed issuance still leaves a timer behind. */
module Lifecycle {
  import opened Results
  import opened CodeGen
  import opened CodeStore

  /** A successful verification consumes the code: the next verification for
      that recipient finds nothing, whatever is submitted and whenever. */
  lemma SingleUse(s: Store, toEmail: string, code: string, now: int, again: string, later: int)
    requires VerifyMFA(s, toEmail, code, now).result.Pass?
    ensures var v := VerifyMFA(s, toEmail, code, now);
            && v.store == s - {toEmail}
            && VerifyMFA(v.store, toEmail, again, later) == Verification(v.store, Fail(NoCodeFound))
  {
  }

  /** Immediately after a successful issuance, provided no expiry timer for
      the recipient has fired in between, the delivered code verifies at any
      instant up to and including the stored expiry, the recipient's entry is
      consumed, and a second verification finds nothing. */
  lemma IssueThenVerify(s: Store, toEmail: string, codeDuration: int,
                        entropy: Result<RandomBytes, string>, canceled: bool,
                        reply: Outcome<string>, t0: int, t1: int, iss: Issuance,
                        now: int, again: string, later: int)
    requires iss == SendMFAEmail(s, toEmail, codeDuration, entropy, canceled, reply, t0, t1)
    requires iss.result.Pass?
    requires now <= t1 + codeDuration
    ensures var v := VerifyMFA(iss.store, toEmail, iss.sent.value.code, now);
            && v.result.Pass?
            && v.store == s - {toEmail}
            && VerifyMFA(v.store, toEmail, again, later).result == Fail(NoCodeFound)
  {
    var v := VerifyMFA(iss.store, toEmail, iss.sent.value.code, now);
    assert v.store == iss.store - {toEmail};
    assert iss.store - {toEmail} == s - {toEmail};
  }

  /** After a successful issuance, provided no expiry timer for the recipient
      has fired in between (the issuance's own timer is due by then, so this is
      the case of a late timer), verifying strictly after the stored expiry
      reports expiry whatever is submitted, removes the entry, and the next
      verification finds nothing. */
  lemma IssueThenExpire(s: Store, toEmail: string, codeDuration: int,
                        entropy: Result<RandomBytes, string>, canceled: bool,
                        reply: Outcome<string>, t0: int, t1: int, iss: Issuance,
                        submitted: string, now: int, again: string, later: int)
    requires iss == SendMFAEmail(s, toEmail, codeDuration, entropy, canceled, reply, t0, t1)
    requires iss.result.Pass?
    requires now > t1 + codeDuration
    ensures var v := VerifyMFA(iss.store, toEmail, submitted, now);
            && v.result == Fail(CodeExpired)
            && v.store == s - {toEmail}
            && VerifyMFA(v.store, toEmail, again, later).result == Fail(NoCodeFound)
  {
    var v := VerifyMFA(iss.store, toEmail, submitted, now);
    assert v.store == iss.store - {toEmail};
    assert iss.store - {toEmail} == s - {toEmail};
  }

  /** A wrong code leaves the entry in place, so the right code submitted
      later, but not after the expiry instant, still succeeds, provided no
      expiry timer for the recipient has fired in between. */
  lemma WrongCodeThenRight(s: Store, toEmail: string, wrong: string, now: int, later: int)
    requires toEmail in s
    requires wrong != s[toEmail].code
    requires now <= later <= s[toEmail].expireAt
    ensures var v := VerifyMFA(s, toEmail, wrong, now);
            && v == Verification(s, Fail(InvalidCode))
            && VerifyMFA(v.store, toEmail, s[toEmail].code, later).result.Pass?
  {
  }

  /** A failed issuance for a recipient without a pending code leaves none:
      a verification right after it finds nothing. */
  lemma FailedIssueLeavesNoCode(s: Store, toEmail: string, codeDuration: int,
                                entropy: Result<RandomBytes, string>, canceled: bool,
                                reply: Outcome<string>, t0: int, t1: int, iss: Issuance,
                                submitted: string, now: int)
    requires iss == SendMFAEmail(s, toEmail, codeDuration, entropy, canceled, reply, t0, t1)
    requires iss.result.Fail?
    requires toEmail !in s
    ensures VerifyMFA(iss.store, toEmail, submitted, now) == Verification(s, Fail(NoCodeFound))
  {
  }

  /** Re-issuance replaces the pending code: afterwards the new code verifies
      up to the new expiry, and the old one is accepted only if the two draws
      happened to produce the same code. */
  lemma ReissueSupersedes(s: Store, toEmail: string, codeDuration: int,
                          e1: Result<RandomBytes, string>, e2: Result<RandomBytes, string>,
                          t0: int, t1: int, u0: int, u1: int,
                          first: Issuance, second: Issuance, now: int)
    requires first == SendMFAEmail(s, toEmail, codeDuration, e1, false, Pass, t0, t1)
    requires second == SendMFAEmail(first.store, toEmail, codeDuration, e2, false, Pass, u0, u1)
    requires first.result.Pass? && second.result.Pass?
    requires now <= u1 + codeDuration
    ensures second.store[toEmail] == MFACode(second.sent.value.code, u1 + codeDuration)
    ensures VerifyMFA(second.store, toEmail, second.sent.value.code, now).result.Pass?
    ensures VerifyMFA(second.store, toEmail, first.sent.value.code, now).result.Pass?
        <==> first.sent.value.code == second.sent.value.code
  {
  }

  /** The expiry timer deletes by recipient, not by entry: the timer of an
      earlier issuance, firing after a re-issuance, removes the newer entry
      before its own expiry, and its code is then no longer accepted. */
  lemma StaleTimerRemovesNewerCode(s: Store, toEmail: string, codeDuration: int,
                                   e1: Result<RandomBytes, string>, c1: bool, reply1: Outcome<string>,
                                   e2: Result<RandomBytes, string>,
                                   t0: int, t1: int, u0: int, u1: int,
                                   first: Issuance, second: Issuance, now: int)
    requires first == SendMFAEmail(s, toEmail, codeDuration, e1, c1, reply1, t0, t1)
    requires second == SendMFAEmail(first.store, toEmail, codeDuration, e2, false, Pass, u0, u1)
    requires first.timer.Some? && second.result.Pass?
    requires now <= u1 + codeDuration
    ensures first.timer.value.recipient == toEmail
    ensures toEmail in second.store && !IsExpired(second.store[toEmail], now)
    ensures var fired := ExpiryFires(second.store, first.timer.value);
            VerifyMFA(fired, toEmail, second.sent.value.code, now).result == Fail(NoCodeFound)
  {
  }

  /** The timer is started before the cancellation check and the delivery, so
      an issuance that produced a code but then failed still schedules a
      delete; when it fires it removes the recipient's earlier pending code. */
  lemma FailedIssueTimerStillDeletes(s: Store, toEmail: string, codeDuration: int,
                                     entropy: Result<RandomBytes, string>, canceled: bool,
                                     reply: Outcome<string>, t0: int, t1: int, iss: Issuance)
    requires iss == SendMFAEmail(s, toEmail, codeDuration, entropy, canceled, reply, t0, t1)
    requires entropy.Ok? && iss.result.Fail?
    requires toEmail in s
    ensures iss.store == s && toEmail in iss.store
    ensures iss.timer == Some(ExpiryTimer(toEmail, t0 + codeDuration))
    ensures toEmail !in ExpiryFires(iss.store, iss.timer.value)
  {
  }

  /** The issuance's own timer, once fired, removes the entry although it has
      not expired: a verification in the window between the timer's due time
      and the stored expiry finds no code, even with the delivered code. */
  lemma OwnTimerBeforeExpiry(s: Store, toEmail: string, codeDuration: int,
                             entropy: Result<RandomBytes, string>, canceled: bool,
                             reply: Outcome<string>, t0: int, t1: int, iss: Issuance,
                             now: int)
    requires iss == SendMFAEmail(s, toEmail, codeDuration, entropy, canceled, reply, t0, t1)
    requires iss.result.Pass?
    requires t0 + codeDuration <= now <= t1 + codeDuration
    ensures !IsExpired(iss.store[toEmail], now)
    ensures iss.timer.Some? && iss.timer.value.fireAt <= now
    ensures var fired := ExpiryFires(iss.store, iss.timer.value);
            VerifyMFA(fired, toEmail, iss.sent.value.code, now) == Verification(fired, Fail(NoCodeFound))
  {
  }

  /** The timer is started no later than the entry is stored, so it is due no
      later than the stored expiry instant: an entry left alone is deleted by
      its own timer no later than the instant it stops being accepted. */
  lemma TimerDueByExpiry(s: Store, toEmail: string, codeDuration: int,
                         entropy: Result<RandomBytes, string>, canceled: bool,
                         reply: Outcome<string>, t0: int, t1: int, iss: Issuance)
    requires iss == SendMFAEmail(s, toEmail, codeDuration, entropy, canceled, reply, t0, t1)
    requires iss.result.Pass?
    requires t0 <= t1
    ensures iss.timer.Some? && iss.timer.value.fireAt <= iss.store[toEmail].expireAt
  {
  }

  /** One event in the life of a store. The code duration is the client's
      single `CodeDuration`, passed to `Step` and `Run`, not part of an event. */
  datatype Event =
    | Issue(recipient: string, entropy: Result<RandomBytes, string>,
            canceled: bool, reply: Outcome<string>, t0: int, t1: int)
    | Verify(recipient: string, submitted: string, now: int)
    | Fire(timer: ExpiryTimer)

  /** One event applied to the store of a client whose `CodeDuration` is `d`. */
  function Step(s: Store, d: int, e: Event): Store {
    match e
    case Issue(r, entropy, canceled, reply, t0, t1) =>
      SendMFAEmail(s, r, d, entropy, canceled, reply, t0, t1).store
    case Verify(r, submitted, now) => VerifyMFA(s, r, submitted, now).store
    case Fire(t) => ExpiryFires(s, t)
  }

  /** The store after the events of `es`, in order. */
  function Run(s: Store, d: int, es: seq<Event>): Store
    decreases |es|
  {
    if |es| == 0 then s else Run(Step(s, d, es[0]), d, es[1..])
  }

  /** The entry an event commits, if any: only an issuance whose every step
      succeeds commits, and what it commits does not depend on the store. */
  function Committed(d: int, e: Event): Option<(string, MFACode)> {
    match e
    case Issue(r, entropy, canceled, reply, t0, t1) =>
      if entropy.Ok? && !canceled && reply.Pass?
      then Some((r, MFACode(GenerateRandomCode(entropy).value, t1 + d)))
      else None
    case _ => None
  }

  /** Every pending code is a six-digit code. */
  ghost predicate CodesWellFormed(s: Store) {
    forall k :: k in s ==> IsCode(s[k].code)
  }

  lemma StepPreservesWellFormed(s: Store, d: int, e: Event)
    requires CodesWellFormed(s)
    ensures CodesWellFormed(Step(s, d, e))
  {
    var s' := Step(s, d, e);
    forall k | k in s'
      ensures IsCode(s'[k].code)
    {
      StepOrigin(s, d, e, k);
    }
  }

  /** Any sequence of events keeps every pending code well formed. */
  lemma {:induction false} RunPreservesWellFormed(s: Store, d: int, es: seq<Event>)
    requires CodesWellFormed(s)
    ensures CodesWellFormed(Run(s, d, es))
    decreases |es|
  {
    if |es| > 0 {
      StepPreservesWellFormed(s, d, es[0]);
      RunPreservesWellFormed(Step(s, d, es[0]), d, es[1..]);
    }
  }

  /** One event either leaves an entry as it was or commits it. */
  lemma StepOrigin(s: Store, d: int, e: Event, k: string)
    requires k in Step(s, d, e)
    ensures (k in s && Step(s, d, e)[k] == s[k]) || Committed(d, e) == Some((k, Step(s, d, e)[k]))
    ensures Committed(d, e).Some? ==> IsCode(Committed(d, e).value.1.code)
  {
    match e
    case Issue(r, entropy, canceled, reply, t0, t1) =>
      var iss := SendMFAEmail(s, r, d, entropy, canceled, reply, t0, t1);
      if k != r {
        assert s - {r} == iss.store - {r};
        assert k in s - {r};
      }
    case Verify(r, submitted, now) =>
      assert SubStore(VerifyMFA(s, r, submitted, now).store, s);
    case Fire(t) =>
      assert SubStore(ExpiryFires(s, t), s);
  }

  /** No code appears from nowhere: every entry after a run of events was
      either there at the start, untouched, or committed by a successful
      issuance among those events. */
  lemma {:induction false} RunOrigin(s: Store, d: int, es: seq<Event>, k: string)
    requires k in Run(s, d, es)
    ensures || (k in s && Run(s, d, es)[k] == s[k])
            || exists i :: 0 <= i < |es| && Committed(d, es[i]) == Some((k, Run(s, d, es)[k]))
    decreases |es|
  {
    if |es| > 0 {
      var s1 := Step(s, d, es[0]);
      var rest := es[1..];
      var v := Run(s, d, es)[k];
      assert Run(s, d, es) == Run(s1, d, rest);
      RunOrigin(s1, d, rest, k);
      if k in s1 && v == s1[k] {
        StepOrigin(s, d, es[0], k);
        if !(k in s && v == s[k]) {
          assert Committed(d, es[0]) == Some((k, v));
        }
      } else {
        var i :| 0 <= i < |rest| && Committed(d, rest[i]) == Some((k, v));
        assert es[i + 1] == rest[i];
        assert Committed(d, es[i + 1]) == Some((k, v));
      }
    }
  }
}
