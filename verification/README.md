# One-time MFA codes: a Dafny model

This project models the one-time-code lifecycle of the `mfa` Go package:
- `GenerateRandomCode` generates six-digit codes.
- `SendMFAEmail` issues them: it generates a code, starts an expiry timer, delivers the code and stores it.
- `VerifyMFA` verifies them, with single-use consumption and deletion on expiry.
- The `time.AfterFunc` callback removes a recipient's entry when it fires.

The model turns the package's nondeterminism into inputs:
- The client's `sync.Map` from recipient address to `MFACode{Code, ExpireAt}` is an immutable `map<string, MFACode>`.
- The wall clock is an integer.
- The three bytes from `crypto/rand` (or the error it reports) are a parameter.
- So are the state of the cancellation context and the reply of the email collaborator.

Every transition is therefore a pure function.

Modules:
- `Results`: the `Option`, `Result` and `Outcome` carriers, standing in for Go's `(value, error)` returns.
- `Decimal`: Go's `%0Nd` formatting of a non-negative integer (`PadZeros`). Its partner is the decimal reading of a digit string (`Value`).
- `CodeGen`: `GenerateRandomCode`. The three bytes are packed exactly as the source does it, with shifts and bitwise or on 24-bit vectors. They are reduced modulo 10^6 and zero-padded to six digits.
- `CodeStore`: `MFACode`, `isExpired`, `VerifyMFA`, `SendMFAEmail`, and the expiry callback as its own transition `ExpiryFires`.
- `Lifecycle`: properties of short event sequences, plus a general `Run` over any sequence of issue, verify and fire events.

An issuance takes two clock readings:
- `t0` is when `time.AfterFunc` starts the timer (mfa.go:64). The timer is due at `t0 + CodeDuration`.
- `t1` is when the entry is stored with `ExpireAt = t1 + CodeDuration` (mfa.go:84).

The issuance result reports the timer it scheduled, if any, and the message handed to the delivery collaborator, if any. This makes two things checkable: "no delivery after cancellation", and "the stored code is the delivered code".

The model follows the code exactly where its behaviour is easy to misread:
- Expiry is strict. A code is expired only when `now > ExpireAt` (mfa.go:129-131), so it is still accepted at `now == ExpireAt`.
- The expiry timer deletes by recipient key, not by code instance (mfa.go:64-67). A stale timer from an earlier issuance therefore deletes a newer entry (`Lifecycle.StaleTimerRemovesNewerCode`).
- The timer is started before the cancellation check and before delivery (mfa.go:64-73). A failed or cancelled issuance that got as far as generating a code still leaves a timer behind (`Lifecycle.FailedIssueTimerStillDeletes`).
- Since the timer is due at `t0 + CodeDuration` and the entry expires at `t1 + CodeDuration`, the timer usually removes an entry before it expires. A verification between the two instants then gets "no code found" (`Lifecycle.OwnTimerBeforeExpiry`). The lemmas about verifying up to the expiry instant hold only for event orders in which no expiry timer for the recipient has fired.
- A delivery error is returned as the collaborator produced it (mfa.go:77-79). It is not wrapped by the store.

## Model

| member | source | states |
|---|---|---|
| CodeGen.Pack | mfa.go:122 | The shift-and-or packing of the three random bytes equals `b0*65536 + b1*256 + b2`, so it lies below 2^24 |
| CodeGen.GenerateRandomCode | mfa.go:114-126 | Fails exactly when the random source fails, wrapping its error; otherwise returns exactly six decimal digits whose decimal reading is the packed bytes modulo 1000000 |
| CodeGen.EveryCodeGeneratable | mfa.go:116-125 | Every six-digit string, leading zeros included, is produced by some three random bytes, so the generated codes are exactly the six-digit strings |
| CodeGen.SameCodeIffSameResidue | mfa.go:122-125 | Two random draws yield the same code if and only if their packed values agree modulo 1000000 |
| CodeGen.BytesFor | mfa.go:122 | Every value below 2^24 is the packing of some three bytes |
| Decimal.Digits | mfa.go:125 | The plain decimal text of n is non-empty, all digits, has no leading zero except the text "0" itself, and reads back as n |
| Decimal.PadZeros | mfa.go:125 | `%0*d` output is all digits, reads back as n, and has length max(width, number of digits of n) |
| Decimal.DigitsLength | mfa.go:123-125 | A number below 10^k has at most k digits, so a value reduced modulo 10^6 is never wider than six characters |
| Decimal.PadZerosOfValue | mfa.go:125 | Formatting the value of any digit string at that string's own width gives back the string |
| Decimal.ValueInjective | mfa.go:125 | Two digit strings of equal width are equal if and only if their values are |
| CodeStore.VerifyMFA | mfa.go:92-111 | Success if and only if an unexpired entry holds the submitted code. "No code found" if and only if there is no entry, and "expired" if and only if `now > ExpireAt`. The entry is removed if and only if it was consumed or expired. Otherwise it stays, and no other recipient's entry changes |
| CodeStore.SendMFAEmail | mfa.go:57-89 | Succeeds if and only if generation succeeds, the context is not cancelled and delivery succeeds. A failure leaves the store unchanged and reports generation, cancellation or delivery in that order. On success, the entry for the recipient is replaced by the generated six-digit code, which is also the code delivered, expiring at `t1 + CodeDuration`, and no other entry changes. A timer due at `t0 + CodeDuration` exists if and only if a code was generated. Delivery is attempted if and only if a code was generated and the context was not cancelled |
| CodeStore.ExpiryFires | mfa.go:64-67 | When the timer fires, the recipient has no entry afterwards, whichever issuance stored it, and every other entry is unchanged |
| Lifecycle.SingleUse | mfa.go:108-110 | After a successful verification, the entry is gone and any later verification for that recipient reports "no code found" |
| Lifecycle.IssueThenVerify | mfa.go:82-110 | After a successful issuance, provided no expiry timer for the recipient has fired in between, the delivered code verifies at any instant up to and including `t1 + CodeDuration`. This consumes the entry, and a second verification reports "no code found" |
| Lifecycle.IssueThenExpire | mfa.go:82-102 | After a successful issuance, provided no expiry timer for the recipient has fired in between (so only when the timer is late), verifying after `t1 + CodeDuration` reports "expired" whatever code is submitted. It removes the entry, and the next verification reports "no code found" |
| Lifecycle.WrongCodeThenRight | mfa.go:104-110 | A wrong code reports "invalid MFA code" and leaves the store unchanged. Provided no expiry timer for the recipient has fired in between, the right code submitted later, up to the expiry instant itself, still succeeds |
| Lifecycle.FailedIssueLeavesNoCode | mfa.go:58-80 | A failed issuance for a recipient with no pending code leaves none, and verification reports "no code found" |
| Lifecycle.ReissueSupersedes | mfa.go:82-85 | After a second successful issuance, the entry holds the second code with the second expiry, and that code verifies. The first code is accepted only if the two draws produced the same code |
| Lifecycle.StaleTimerRemovesNewerCode | mfa.go:64-85 | The timer of an earlier issuance, firing after a successful re-issuance, removes the newer unexpired entry. The newer code then gets "no code found" |
| Lifecycle.FailedIssueTimerStillDeletes | mfa.go:64-80 | An issuance that generated a code but then failed still schedules a timer due at `t0 + CodeDuration`. When it fires, it removes the recipient's earlier entry |
| Lifecycle.OwnTimerBeforeExpiry | mfa.go:64-85 | Once the issuance's own timer has fired, the recipient has no entry although the stored code has not expired: a verification between `t0 + CodeDuration` and `t1 + CodeDuration` reports "no code found", even with the delivered code |
| Lifecycle.TimerDueByExpiry | mfa.go:64-85 | With `t0 <= t1`, the timer of a successful issuance is due no later than the stored `ExpireAt` |
| Lifecycle.RunPreservesWellFormed | mfa.go:82-85 | Over any sequence of issuances, verifications and timer firings, every pending code stays a six-digit code |
| Lifecycle.RunOrigin | mfa.go:82-85 | After any sequence of events, every entry either was there at the start, untouched, or was committed by a fully successful issuance in the sequence |

## Left out

- `CreateMFAClient` (mfa.go:32-48): it only wires the SMTP dialer and the email client together.
- The `log` hook (mfa.go:50-54): purely observational, with no effect on the store or on results.
- The email client (client/email/email.go): address validation, templating and SMTP sending are opaque. Delivery is one success-or-error input to `SendMFAEmail`.
- `crypto/rand.Read` (mfa.go:118): its bytes or its error are an input. The modulo bias of reducing a 24-bit value modulo 10^6 is not modelled.
- `time.Now()`: clock readings are integer parameters. `time.Duration` overflow and monotonic-clock details are not modelled.
- Concurrency of `sync.Map` and of the `time.AfterFunc` goroutine: events are applied one at a time in a chosen order. Races between them are not verified.
- The `val.(MFACode)` type assertion (mfa.go:98): the typed map makes it unnecessary.
- The exact error strings: the error kinds are distinguished by constructors. The strings appear as comments beside the constructors.
- The terminal demo loop (example/main.go) and the test mocks (mockStruct/mfaEmailclient.go, client/mockStruct/dial.go).
