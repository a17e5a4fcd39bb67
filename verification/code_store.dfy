/** The per-recipient code store of mfa.go: the `MFACode` entries kept in the
    client's `sync.Map`, and the three transitions that change it.

    - `VerifyMFA`: checks a submitted code and consumes or expires the entry.
    - `SendMFAEmail`: issues a code, schedules its expiry, hands it to the
      delivery collaborator and, only on success, stores it.
    - `ExpiryFires`: the `time.AfterFunc` callback scheduled by an issuance.

    The map is an immutable `map`, the clock an integer, and randomness,
    cancellation and the delivery outcome are explicit inputs. */
module CodeStore {
  import opened Results
  import opened CodeGen

  /** A pending code and the instant after which it is no longer accepted. */
  datatype MFACode = MFACode(code: string, expireAt: int)

  /** Recipient address to its pending code: at most one per recipient. */
  type Store = map<string, MFACode>

  /** Strictly after the expiry instant: at `now == expireAt` the code is still good. */
  predicate IsExpired(entry: MFACode, now: int) {
    now > entry.expireAt
  }

  /** The three failures of `VerifyMFA`. */
  datatype VerifyError =
    | NoCodeFound   // "no MFA code found for this email"
    | CodeExpired   // "MFA code expired"
    | InvalidCode   // "invalid MFA code"

  /** The store after a verification and what the caller is told. */
  datatype Verification = Verification(store: Store, result: Outcome<VerifyError>)

  /** Nothing but the entry of `key` differs between `s` and `s'`. */
  predicate OthersUnchanged(s: Store, s': Store, key: string) {
    s - {key} == s' - {key}
  }

  /** Every entry of `s'` is an entry of `s`: the transition only deletes. */
  predicate SubStore(s': Store, s: Store) {
    forall k :: k in s' ==> k in s && s'[k] == s[k]
  }

  /** `VerifyMFA(toEmail, submitted)` at clock reading `now`. */
  function VerifyMFA(s: Store, toEmail: string, submitted: string, now: int): (r: Verification)
    ensures OthersUnchanged(s, r.store, toEmail)
    ensures SubStore(r.store, s)
    // success exactly for a present, unexpired entry holding the submitted code
    ensures r.result.Pass? <==>
              toEmail in s && !IsExpired(s[toEmail], now) && s[toEmail].code == submitted
    // the entry is gone exactly when it was consumed or found expired
    ensures toEmail !in r.store <==> toEmail !in s || r.result.Pass? || r.result == Fail(CodeExpired)
    ensures r.result == Fail(NoCodeFound) <==> toEmail !in s
    ensures r.result == Fail(CodeExpired) <==> toEmail in s && IsExpired(s[toEmail], now)
  {
    if toEmail !in s then
      Verification(s, Fail(NoCodeFound))
    else
      var entry := s[toEmail];
      if IsExpired(entry, now) then
        Verification(s - {toEmail}, Fail(CodeExpired))
      else if submitted != entry.code then
        Verification(s, Fail(InvalidCode))
      else
        Verification(s - {toEmail}, Pass)
  }

  /** The failures of `SendMFAEmail`. */
  datatype IssueError =
    | GenerationFailed(cause: GenError)   // "failed to generate MFA code: ..."
    | ContextCanceled                     // "context canceled while sending MFA email"
    | DeliveryFailed(reason: string)      // the delivery collaborator's error, returned as is

  /** The deferred delete registered with `time.AfterFunc`: at `fireAt` it
      removes whatever entry `recipient` then has. */
  datatype ExpiryTimer = ExpiryTimer(recipient: string, fireAt: int)

  /** The message handed to the delivery collaborator. */
  datatype Delivery = Delivery(recipient: string, code: string)

  /** The effects of one issuance: the new store, the returned error, the timer
      scheduled (if any) and the delivery attempted (if any). */
  datatype Issuance = Issuance(store: Store, result: Outcome<IssueError>,
                               timer: Option<ExpiryTimer>, sent: Option<Delivery>)

  /** `SendMFAEmail(ctx, toEmail)` for a client whose `CodeDuration` is
      `codeDuration`. `entropy` is what the random source yields, `canceled`
      whether the context is done when checked, `reply` what the delivery
      collaborator returns if asked; `t0` is the clock when the expiry timer is
      started and `t1` the clock when the entry is stored. */
  function SendMFAEmail(s: Store, toEmail: string, codeDuration: int,
                        entropy: Result<RandomBytes, string>, canceled: bool,
                        reply: Outcome<string>, t0: int, t1: int): (r: Issuance)
    // succeeds exactly when every step does
    ensures r.result.Pass? <==> entropy.Ok? && !canceled && reply.Pass?
    ensures r.result.Fail? ==> r.store == s
    ensures r.result.Pass? ==>
              && toEmail in r.store
              && IsCode(r.store[toEmail].code)
              && r.store[toEmail].expireAt == t1 + codeDuration
              && r.store.Keys == s.Keys + {toEmail}
              && OthersUnchanged(s, r.store, toEmail)
    // the timer is started as soon as a code exists, whatever happens next
    ensures r.timer.Some? <==> entropy.Ok?
    ensures r.timer.Some? ==> r.timer.value == ExpiryTimer(toEmail, t0 + codeDuration)
    // delivery is attempted only for an uncanceled context, with a well-formed code
    ensures r.sent.Some? <==> entropy.Ok? && !canceled
    ensures r.sent.Some? ==> r.sent.value.recipient == toEmail && IsCode(r.sent.value.code)
    // the code delivered is the code generated, and what is stored is what was delivered
    ensures r.sent.Some? ==> r.sent.value.code == GenerateRandomCode(entropy).value
    ensures r.result.Pass? ==> r.sent.Some? && r.store[toEmail].code == r.sent.value.code
    ensures r.result.Fail? ==>
              r.result.error == (if entropy.Err? then GenerationFailed(RandomReadFailed(entropy.error))
                                 else if canceled then ContextCanceled
                                 else DeliveryFailed(reply.error))
  {
    match GenerateRandomCode(entropy)
    case Err(e) => Issuance(s, Fail(GenerationFailed(e)), None, None)
    case Ok(code) =>
      var timer := Some(ExpiryTimer(toEmail, t0 + codeDuration));
      if canceled then
        Issuance(s, Fail(ContextCanceled), timer, None)
      else
        var sent := Some(Delivery(toEmail, code));
        match reply
        case Fail(e) => Issuance(s, Fail(DeliveryFailed(e)), timer, sent)
        case Pass =>
          var entry := MFACode(code, t1 + codeDuration);
          UpdateOnlyTouchesKey(s, toEmail, entry);
          Issuance(s[toEmail := entry], Pass, timer, sent)
  }

  lemma UpdateOnlyTouchesKey(s: Store, key: string, entry: MFACode)
    ensures OthersUnchanged(s, s[key := entry], key)
    ensures s[key := entry].Keys == s.Keys + {key}
  {
    assert s - {key} == s[key := entry] - {key};
  }

  /** The `time.AfterFunc` callback firing: deletes by key, so the entry goes
      whichever issuance stored it. */
  function ExpiryFires(s: Store, t: ExpiryTimer): (r: Store)
    ensures t.recipient !in r
    ensures OthersUnchanged(s, r, t.recipient)
  {
    s - {t.recipient}
  }
}
