# Litterae: a verified model of a mail server's core

This project models the parts of the Litterae mail server that carry its promises and
proves what those parts promise.

* **Outbound queue.** Enqueueing, the single delivery worker, crashes and the retry
  schedule are one state machine (`QueueMachine`). Its runs are every interleaving of
  those steps. What a row says is tied to the decisions taken about it (`QueueHistory`).
  `Worker` holds the same code in imperative form, proved step by step
  against the machine.
* **SMTP.** The line reader and DATA decoder (`SmtpWire`), the receiving server (`SmtpIn`)
  and the submission server (`Submission`) run on arbitrary byte sequences. A session is
  a function of the input (`SmtpSession`): what a line is answered depends on the input
  after it and on the history of replies alone (`SmtpTrace`). Each server, with its mutable
  envelope and reader, is proved to be that function, and the function's histories are
  proved sound. What the hand-written parsers read is given as grammars (`SmtpGrammar`,
  `AddressGrammar`).
* **Delivery.** MX selection with DANE, the envelope dialogue and reply classification
  (`Transport`, `Classify`).
* **Audit log and administrator keys.** The hash chain (`AuditChain`) and the key-wrapping
  invariant across admin store, audit store and sessions (`AdminKeys`).
* **Smaller pure code.** The calendar (`Calendar`, `Timestamps`), timers (`Scheduled`),
  `Contact/set` (`Contacts`), subject keys (`Subject`), the blob header (`Header`), keyword
  queries (`Keywords`), input validation (`Input`), back-off (`Backoff`) and rate limits
  (`RateLimit`).

Clocks, random draws, DNS answers, remote servers, the password hash, the keyed hash,
signatures and storage failures are parameters. Sealing is symbolic: a sealed value opens
under its own key and no other. Table rows are sequence elements; a row's id is its index
plus one. Integers are unbounded except where the width matters (the header's sixteen-bit
length, key ids, timestamps). Automatic induction is off on every lemma, so every
inductive proof is the one written out.

## Where the code does not do what one might expect

Each of these is proved, with the exact condition under which the property does hold.

* A message's blob can be deleted while a recipient still needs it. Blobs are safe
  throughout a run exactly if no removal in it overlaps an enqueue of the same content,
  that is, if at a removal none is between its blob write and its last row, and no row
  of that content came in since the cleanup's query (`BlobsSafeExactly`). Each way to
  lose a blob is reached from an empty queue (`RemovedBeforeRows`, `RemovedAfterRows`,
  `RemovedBetweenRows`).
* Delay reports are never sent, since enqueueing never asks for them (`NoDelayReports`).
* `AUTH` with an unknown mechanism gets two replies, every other command one
  (`Submission.OneFinalReply`).
* A mailbox can be provisioned whose own address the queue refuses (`ProvisionedAddress`,
  `EnvelopeCheckPasses`); `LongMailbox` is one.
* A login whose password check precedes a concurrent password change creates a session
  with a stale key, and the invariant holds throughout a run exactly if no login does that
  (`AdminService.Serve`, `StaleLogin`). A password change with no
  audit key row stops half way, and a server whose audit keys could not be written at the
  first start gets there (`AdminService.HandleChangePassword`, `HalfBootstrapped`).
* `verify_latest_signature` does not read the log, although its comment says that it
  compares with the entry: any log at all passes (`ReplacedLogPasses`). The comparison
  that is missing holds exactly if the log agrees with what the store logged up to the
  signed entry, or the hash is broken (`CoversExactly`). The action, the time and the
  sealed text of an entry are outside the chain (`OnlyCoveredColumnsMatter`).
* Marks on timers go by id and do not look at the row again. Fired and cancelled are
  final exactly if the worker's pass and the patches at work have no event in common
  (`FinalExactly`); otherwise a cancelled timer can end as fired and a fired one as
  cancelled, from an empty table (`CancelledThenFired`, `FiredThenCancelled`). A message
  has at most one timer exactly if no two patches at work start the same one
  (`OneTimerExactly`, `TwoTimers`). Two spellings of one message id give it two timers
  (`OnePerMessageExactly`).
* `Contact/set` lets duplicates through if reading the contacts failed
  (`DistinctExactly`).
* `normalize_subject` panics on some subjects outside ASCII (`PanicsExactly`,
  `SomeSubjectsPanic`).
* The header is not decodable when the nonce has 65536 bytes or more
  (`RoundTripExactly`). `has_keyword` is case-sensitive where the query is not, although
  its comment calls them the same (`SelectsKeywordExactly`).
* Timestamps sort as text for the years -1 to 9999, and no range around 0 to 9999 that
  goes further has this property (`OrderExactly`).

## Model

| member | source | states |
|---|---|---|
| `QueueMachine.StepKeepsInv` | crates/queue/src/worker.rs:123-205 | every step of enqueue, worker or crash keeps rows pointing at messages and the worker's memory equal to the rows it claimed |
| `QueueMachine.RunKeepsInv` | crates/queue/src/worker.rs:123-205 | the same over every run |
| `QueueMachine.Concat` | crates/queue/src/worker.rs:123-151 | legal runs compose |
| `QueueSafety.StepOnRow` | crates/queue/src/worker.rs:497-557 | one step keeps a row's identity, follows the state diagram, and adds at most one attempt, only to a claimed row |
| `QueueSafety.RowsSurviveRuns` | crates/queue/src/worker.rs:153-205 | over every run no recipient row is lost or changes identity, and delivered, failed and expired rows never change again |
| `QueueSafety.RowsConserved` | crates/queue/src/enqueue.rs:85-115 | over every run the recipient rows are the old ones and then, in order, one for each recipient inserted for each accepted message, with that message's number, the recipient's address, the lower-cased text after its last '@' and FAILURE; nothing is duplicated and no other step adds a row |
| `QueueSafety.MessagesConserved` | crates/queue/src/enqueue.rs:85-102 | over every run the new message rows are, in order, those of the accepted messages: account, sender, content, time, a lifetime of 432000 seconds and kind |
| `QueueSafety.WholeMessages` | crates/queue/src/enqueue.rs:103-115 | in a run in which no enqueue is given up or left unfinished, every accepted message has a row for each of its recipients |
| `QueueSafety.EachClaimHandledOnce` | crates/queue/src/worker.rs:135-151 | until the next claim, the recipients finalized or released and those still in memory are the claimed ones, each exactly once |
| `QueueSafety.BlobsSafeExactly` | crates/queue/src/worker.rs:593-618 | throughout a run every unfinished recipient and every enqueue at work has its blob exactly if no removal overlaps an enqueue of the same content |
| `QueueSafety.BlobsPresentWhileNeeded` | crates/queue/src/worker.rs:593-618 | hence, in every reachable state of a run without such an overlap, every unfinished recipient's blob is stored, even when messages share content |
| `QueueSafety.WorkerKeepsBlobs` | crates/queue/src/worker.rs:593-618 | the worker alone never removes a blob that is needed, whatever enqueues are waiting |
| `QueueSafety.RaceLosesBlob` | crates/queue/src/enqueue.rs:48-115 | the converse for a state: after a removal that overlaps an enqueue that can go on, a recipient is or becomes ready without its blob |
| `QueueSafety.EveryHourWithinLimits` | crates/queue/src/enqueue.rs:50-115 | in every run, under any clock, no account exceeds 200 messages or 500 recipients in any hour |
| `RateLimit.InsertKeepsWindows` | crates/queue/src/enqueue.rs:55-83 | an insert that passed the check keeps every window of every account within both limits |
| `RateLimit.FitsExactly` | crates/queue/src/enqueue.rs:50-83 | a message that is no report is within the limits exactly if the account has fewer than 200 messages of the last hour and, with this one, they have at most 500 recipients |
| `RateLimit.SameRefsSameCount` | crates/queue/src/enqueue.rs:55-83 | counts depend only on which message a row belongs to |
| `QueueRetries.AttemptsBounded` | crates/queue/src/worker.rs:512-536 | for every jitter and forward clock, attempts never exceed 24, and 23 for an unfinished row |
| `QueueRetries.DeferralsBounded` | crates/queue/src/worker.rs:512-536 | no recipient, present at the start or inserted during the run, is deferred more than 23 times |
| `QueueRetries.PassFinishesExactly` | crates/queue/src/worker.rs:186-205 | after reap and expire a recipient is finished exactly if it was, or its message expired and no younger claim holds it |
| `QueueRetries.PassFinishesOverdue` | crates/queue/src/worker.rs:123-205 | after any run that starts with reap and expire, whatever follows, every overdue recipient is finished |
| `QueueRetries.ReportsAtMostOnce` | crates/queue/src/worker.rs:628-641 | over every run each recipient causes at most one failure and one delay report, none for a null sender, a bounce or NEVER |
| `QueueHistory.HistoryDecides` | crates/queue/src/worker.rs:497-641 | over every run from an empty queue, a row says what was decided about it: delivered exactly if the last decision delivered, failed exactly if it was a permanent refusal, expired if it was a transient one past the lifetime; attempts are the decisions that did not deliver, the report kept is the last one's, a retry is due the scheduled delay after it; without a decision the row is as it was enqueued, its domain that of its address; there is one failure report exactly if the last decision gave up, the report could be delivered, there is a sender and the message is no report, and otherwise none |
| `QueueWitnesses.BoundIsAttained` | crates/queue/src/backoff.rs:8-28 | every count up to 23 deferrals is reached by some run |
| `QueueWitnesses.RemovedBeforeRows` | crates/queue/src/enqueue.rs:48-115 | from an empty queue: the blob is removed between the second copy's blob write and its rows |
| `QueueWitnesses.RemovedAfterRows` | crates/queue/src/worker.rs:599-618 | from an empty queue: the second copy is enqueued between the cleanup's query and its removal |
| `QueueWitnesses.RemovedBetweenRows` | crates/queue/src/enqueue.rs:103-115 | from an empty queue: the first recipient is delivered and cleaned up before the second is inserted |
| `QueueWitnesses.NoDelayReports` | crates/queue/src/worker.rs:569-592 | no run from an empty queue sends a delay report |
| `Backoff.OnlyTwentyTwoRetriesFit` | crates/queue/src/backoff.rs:8-28 | the n-th retry can fall due within five days exactly for n up to 22 |
| `Backoff.NextDelaySecs` | crates/queue/src/backoff.rs:19-28 | the delay stays within 15 percent of the schedule |
| `Backoff.DelayExactly` | crates/queue/src/backoff.rs:8-28 | the wait after the n-th failure is 5, 15 or 30 minutes, 1, 2 or 4 hours, then 8 hours, changed by the draw and cut to whole seconds |
| `Worker.QueueStore.Enqueue` | crates/queue/src/enqueue.rs:29-118 | refuses exactly an invalid sender, no recipients, more than 100 or an invalid one, and then exactly what is over the limits; on success writes the message row and, for each recipient in order, a row with its address and domain, ready, not tried, due at once, and otherwise no row; is the machine's spool, message row and recipient rows |
| `Worker.GroupUnits` | crates/queue/src/worker.rs:135-141 | the units partition the claimed recipients by message and domain, in claim order |
| `Worker.GroupOrder` | crates/queue/src/worker.rs:135-141 | recipients of a unit come in the order of the claim |
| `Worker.UnitOutcomes` | crates/queue/src/worker.rs:351-430 | one outcome per recipient: transient for an unreadable blob or a failed lookup, permanent for a null MX, permanent or transient when no host could be used according to whether one was protected, and otherwise what the first refusal among MAIL, its RCPT and DATA calls for; cooldown exactly if every MX host failed |
| `Worker.PickEarliest` | crates/queue/src/worker.rs:153-166 | the earliest due row not yet chosen |
| `Worker.SelectDue` | crates/queue/src/worker.rs:153-166 | distinct due rows, earliest first, as many as the batch allows |
| `Worker.DecideRow` | crates/queue/src/worker.rs:497-557 | the row's state, attempts, report and next attempt for each outcome, when a failure or a delay is to be reported, and that this is the machine's step |
| `Worker.Worker.ReapStaleClaims` | crates/queue/src/worker.rs:186-194 | exactly the claims older than 300 seconds become ready, no other row changes, and this is the machine's reap |
| `Worker.Worker.ExpireOverdue` | crates/queue/src/worker.rs:196-205 | exactly the waiting recipients of overdue messages expire, no other row changes, and this is the machine's expire |
| `Worker.Worker.ClaimBatch` | crates/queue/src/worker.rs:153-184 | at most 100 rows that were waiting and due are marked claimed with the time and copied into memory, no other row changes, with fewer than 100 nothing due is left, and this is the machine's claim |
| `Worker.Worker.ReleaseToReady` | crates/queue/src/worker.rs:303-312 | the claimed row becomes ready, nothing else changes, and this is the machine's release |
| `Worker.Worker.Finalize` | crates/queue/src/worker.rs:497-594 | is the machine's finalize followed by its cleanup's query and removal |
| `Worker.Worker.CleanupTerminalMessage` | crates/queue/src/worker.rs:599-618 | the blob goes exactly if every recipient of every message with that content is finished and the removal succeeds |
| `Worker.Worker.DecideUnit` | crates/queue/src/worker.rs:313-326 | no outcome exactly while the domain cools down; a cooldown starts exactly if every MX host failed, at the time of that failure |
| `Worker.Worker.ProcessUnit` | crates/queue/src/worker.rs:351-430 | every recipient of a unit, in order, is released, or finalized with the outcome the world's answers call for |
| `Worker.Worker.ProcessUnits` | crates/queue/src/worker.rs:135-151 | whatever the order of units, each has exactly one turn, in which its recipients are released exactly while the domain cools down and otherwise finalized with what the world answered |
| `Worker.Worker.RunPass` | crates/queue/src/worker.rs:123-151 | a pass with no enqueue in between is a run of the machine: reap, expire, claim, then one turn for each unit, so that each claimed recipient is dealt with exactly once; every overdue recipient is finished; if no needed blob was missing and the disk works, nobody gets a storage error |
| `Worker.TurnsAnswered` | crates/queue/src/worker.rs:351-430 | in such a pass every turn reads its blob, even when earlier turns cleaned up |
| `Transport.AcceptedIffPinned` | crates/queue/src/dane.rs:53-108 | a certificate is accepted exactly if a DANE-EE, SPKI, SHA-256 record pins its key |
| `Transport.ConnectOpportunistic` | crates/queue/src/worker.rs:444-495 | the first usable host in order; plaintext only where TLSA is validly empty; TLS with records only when pinned; failure is a DANE failure exactly if an attempted host was protected |
| `Transport.RunEnvelope` | crates/queue/src/worker.rs:712-752 | one outcome per recipient, decided by the first of MAIL, its RCPT and DATA that is no success: a 2xx reply delivers, a 5xx reply is permanent, anything else transient, and the report is that reply's code, status and text, or the error's text; the fallback is never used |
| `Transport.OutcomeExactly` | crates/queue/src/classify.rs:24-92 | the same, recipient by recipient |
| `Transport.DeliveredExactly` | crates/queue/src/classify.rs:24-92 | when a recipient counts as delivered and when as permanently failed, both exactly |
| `SmtpWire.Reader.ReadLineBounded` | crates/smtp-in/src/session.rs:511-535 | returns exactly the next line, end of input or too long, and consumes just the line |
| `SmtpWire.LineAtExactly` | crates/smtp-in/src/session.rs:511-535 | the line found is the text up to the first line feed; end of input exactly if no line feed is left and the limit is not passed; too long exactly if there is none within the limit and the byte after it |
| `SmtpWire.Reader.ReadData` | crates/smtp-in/src/session.rs:479-509 | is the decoder, leaves the following input alone and respects the size limit |
| `SmtpWire.DotTransparency` | crates/smtp-in/src/session.rs:479-535 | the dot-stuffed form of any message of complete lines decodes to that message with the rest untouched, exactly within the limits (section 4.5.2 of RFC 5321) |
| `SmtpWire.AcceptedMeans` | crates/submission/src/session.rs:425-478 | the converse: whatever is accepted was such a sequence of lines and a terminator |
| `SmtpGrammar.CommandWritten` | crates/smtp-in/src/session.rs:561-566 | every line is a verb without blanks, perhaps a blank and a trimmed argument, and line ends, and is read so |
| `SmtpGrammar.SameInAnyCase` | crates/smtp-in/src/session.rs:147-150 | a verb matches a capital word exactly if they are equal up to ASCII case |
| `SmtpGrammar.MailRead` | crates/smtp-in/src/session.rs:184 | a line is MAIL, with its argument, exactly if that is its verb; the lemmas beside it say the same of the other commands |
| `SmtpGrammar.ParameterExactly` | crates/smtp-in/src/session.rs:568-581 | an address is read exactly if the argument is the prefix in any case, blanks, and that address up to the first closing bracket |
| `SmtpTrace.StateTracks` | crates/smtp-in/src/session.rs:149-334 | for every history, the state read off its last replies is the open MAIL and the recipients answered 250 since |
| `SmtpTrace.GreetedExactly` | crates/smtp-in/src/session.rs:150-158 | greeted exactly if a greeting was accepted with no TLS upgrade since |
| `SmtpTrace.AuthenticatedExactly` | crates/submission/src/session.rs:181-200 | authenticated as an account exactly if AUTH accepted it, with no other AUTH and no TLS upgrade since |
| `SmtpTrace.HandingIsJustified` | crates/smtp-in/src/session.rs:224-334 | handing on the envelope is justified by the history |
| `SmtpSession.SessionKeeps` | crates/smtp-in/src/session.rs:114-351 | what every single answer keeps, every session keeps, and a session only adds to the history |
| `SmtpSession.LineContinues` | crates/smtp-in/src/session.rs:114-148 | after a line that was answered, the rest of the session is the session on the input left |
| `SmtpSession.EndsWithInput` | crates/smtp-in/src/session.rs:134-146 | input without another line ends the session silently, and a line longer than 4096 bytes and its line feed with 500 |
| `SmtpIn.OnData` | crates/smtp-in/src/session.rs:224-334 | refused out of sequence; otherwise hands on sender, recipients and the decoding of the input, or closes |
| `SmtpIn.OnCommand` | crates/smtp-in/src/session.rs:149-349 | every command gets exactly the reply that history and input call for; what that is, `ConnectionJustified`, `RcptRefused`, `MailRefused`, `OthersAnswered`, `EndsAnswered` and `MessageAccepted` say |
| `SmtpIn.CommandLoop` | crates/smtp-in/src/session.rs:114-351 | for every input, the loop's history and outcome are the session that the input calls for |
| `SmtpIn.HandleConnection` | crates/smtp-in/src/session.rs:78-112 | the same across STARTTLS, which starts a fresh envelope |
| `SmtpIn.UpgradeExactly` | crates/smtp-in/src/session.rs:78-112 | TLS follows exactly if STARTTLS was accepted last, nothing was pipelined and the handshake succeeded, and then nothing said before counts |
| `SmtpIn.ConnectionJustified` | crates/smtp-in/src/session.rs:78-351 | in every connection, a message handed on goes to exactly the recipients accepted since the last accepted MAIL with no reset between, in order, at most 100, and is the decoding of what the client sent after a DATA line; every greeting, sender, recipient, reset and upgrade accepted was asked for in a line the client sent and could be granted: a sender after a greeting, a recipient with a valid address that resolved, then, to the account it is delivered to; 250 after DATA exactly if the scanner passed the message and somebody got it, 550 exactly if it was rejected |
| `SmtpIn.HandedKnown` | crates/smtp-in/src/session.rs:200-334 | each recipient of a message handed on was accepted earlier, with a valid address that resolved to its account at that moment |
| `SmtpIn.RcptRefused` | crates/smtp-in/src/session.rs:200-223 | RCPT is 503 without a sender, 452 when the transaction is full, 501 without a valid address, 550 for an address that does not resolve, and changes nothing |
| `SmtpIn.MailRefused` | crates/smtp-in/src/session.rs:184-199 | MAIL is 503 before a greeting and 501 without an address, and changes nothing |
| `SmtpIn.OthersAnswered` | crates/smtp-in/src/session.rs:149-349 | a bad greeting is 501; RSET ends the transaction and nothing else; NOOP is 250; STARTTLS is 503 over TLS, 502 when unavailable and 501 with an argument; other commands are 502 |
| `SmtpIn.EndsAnswered` | crates/smtp-in/src/session.rs:171-349 | QUIT, a granted STARTTLS and DATA that is too large or cut off end the session with 221, 220, 552 and nothing; DATA without sender or recipients is 503 |
| `SmtpIn.HeloDomainExactly` | crates/common/src/input.rs:69-84 | a greeting is valid exactly if it is a domain name, or an IPv6 literal after its tag or an IPv4 literal, in brackets |
| `SmtpIn.MessageAccepted` | crates/smtp-in/src/session.rs:114-351 | a greeting, a sender, 1 to 100 known mailboxes and a message within the limits are accepted at any point of any session, and the message is handed on byte for byte to exactly those mailboxes |
| `SmtpIn.SpelledMessageAccepted` | crates/smtp-in/src/session.rs:114-351 | the same for EHLO, `MAIL FROM:<..>` and `RCPT TO:<..>` lines as clients write them |
| `Submission.OnAuth` | crates/submission/src/session.rs:303-387 | refused before TLS and after success; otherwise the account accepted is the one granted to the credentials on this line or the next, and none is accepted if they were not granted |
| `Submission.OnData` | crates/submission/src/session.rs:243-284 | an open transaction implies an account, and the decoding of the input goes to the queue under it |
| `Submission.OnCommand` | crates/submission/src/session.rs:147-299 | every command gets exactly the reply that history and input call for |
| `Submission.OneFinalReply` | crates/submission/src/session.rs:147-299 | while the connection lasts, a command has one final reply, or two for AUTH with an unknown mechanism |
| `Submission.CommandLoop` | crates/submission/src/session.rs:110-299 | for every input, the loop's history and outcome are the session that the input calls for |
| `Submission.SessionKeepsInvariant` | crates/submission/src/session.rs:110-299 | in every session a sender implies an account, an account implies TLS, the sender is the account's address up to case, at most one account is accepted, and its credentials were in the input and granted; senders and recipients were asked for, recipients are valid and at most 100; after DATA the reply is 250 exactly if the queue took the message, 450 exactly if it was over the limits, otherwise 451 |
| `Submission.HandleStartTlsConnection` | crates/submission/src/session.rs:63-96 | both sessions, the second only after STARTTLS and a handshake, with a fresh envelope |
| `Submission.UpgradeExactly` | crates/submission/src/session.rs:63-96 | TLS follows exactly if STARTTLS was accepted last, nothing was pipelined and the handshake succeeded, and then nothing said before counts |
| `Submission.ConnectionSound` | crates/submission/src/session.rs:63-96 | in every connection nothing is accepted before TLS, and the whole history is sound for what was sent over TLS, down to the bytes queued |
| `Submission.HandleImplicitConnection` | crates/submission/src/session.rs:98-107 | the session over TLS from the first byte, and that it is sound |
| `Submission.HandedSenderIsAuthenticated` | crates/submission/src/session.rs:181-283 | a message handed on is one the client sent over TLS, carries local part, '@' and domain of an account that was granted to credentials sent over TLS, up to case, and was offered to the queue in that account's name, with the reply that the queue's answer calls for |
| `Submission.MailRefused` | crates/submission/src/session.rs:201-224 | MAIL is 530 without an account, 501 without an address and 553 with another one's, and changes nothing |
| `Submission.RcptRefused` | crates/submission/src/session.rs:225-242 | RCPT is 503 without a sender, 501 without a valid address and 452 when the transaction is full, and changes nothing |
| `Submission.AuthRefused` | crates/submission/src/session.rs:303-387 | AUTH is 530 before TLS, 503 after success, 504 and 535 for an unknown mechanism, 535 for denied credentials on this line or, after 334, on the next |
| `Submission.OthersAnswered` | crates/submission/src/session.rs:147-299 | a bad greeting is 501; RSET ends the transaction and nothing else; NOOP is 250; STARTTLS is 503 over TLS and 501 with an argument; an unknown command is 502 |
| `Submission.EndsAnswered` | crates/submission/src/session.rs:170-299 | QUIT, a granted STARTTLS and DATA that is too large or cut off end the session; DATA without sender or recipients is 503 |
| `Submission.MessageQueued` | crates/submission/src/session.rs:110-299 | over TLS, a greeting, granted credentials, the account's address as sender, 1 to 100 valid recipients and a message within the limits are accepted, and the queue gets exactly that in the account's name |
| `Submission.SpelledMessageQueued` | crates/submission/src/session.rs:110-299 | the same for lines as clients write them |
| `Submission.EnvelopeCheckPasses` | crates/queue/src/enqueue.rs:35-44 | for a provisioned account the queue's envelope check passes exactly if its address fits in 254 bytes |
| `Input.ValidityIgnoresCase` | crates/common/src/input.rs:20-63 | addresses equal up to ASCII case are both valid or both invalid |
| `AddressGrammar.AddressExactly` | crates/common/src/input.rs:17-47 | an address is valid exactly if it is non-empty atoms with dots between them, '@' and a domain, all printable, in at most 254 bytes |
| `AddressGrammar.LocalExactly` | crates/common/src/input.rs:36-45 | the rules for dots in a local part amount to non-empty atoms |
| `AddressGrammar.DomainExactly` | crates/common/src/input.rs:49-63 | a domain is valid exactly if it is labels of 1 to 63 letters, digits and inner hyphens with dots between them, at most 253 characters |
| `Input.StoredDomainIsValid` | crates/queue/src/enqueue.rs:103-108 | the domain stored for a valid address is a valid domain name and the address's own |
| `Input.ProvisionedAddress` | crates/auth/src/store.rs:144-147 | a provisioned mailbox has a valid address exactly if it fits in 254 bytes |
| `Input.LongMailbox` | crates/common/src/input.rs:20-63 | a mailbox that passes the provisioning checks and has an address of 255 bytes |
| `AuditChain.AuditStore.Log` | crates/audit/src/store.rs:224-274 | appends one entry: time, action, sealed text, the commitment to the detail, the previous entry's hash or 32 zeros, and the hash of both; changes no other; adds a signature row exactly for every twentieth |
| `AuditChain.AuditStore.SignHeadNow` | crates/audit/src/store.rs:296-313 | adds the signature row of the last entry, nothing for an empty log |
| `AuditChain.AuditStore.VerifyChain` | crates/audit/src/store.rs:318-349 | true exactly for a linked chain |
| `AuditChain.AuditStore.VerifyLatestSignature` | crates/audit/src/store.rs:353-373 | none exactly if nothing was signed; otherwise the verdict on a latest row, never false on a log the store wrote |
| `AuditChain.TamperEvidence` | crates/audit/src/store.rs:318-349 | two accepted chains with the same head agree, or yield a hash collision or a preimage of the genesis hash |
| `AuditChain.HeadMessageInjective` | crates/audit/src/store.rs:418-422 | a signed message determines the sequence number and the hash |
| `AuditChain.HeadMessageLayout` | crates/audit/src/store.rs:418-422 | the signed message is the number in eight bytes, the most significant first, and the hash |
| `AuditChain.SignaturePinsPrefix` | crates/audit/src/store.rs:276-373 | if only what the store signed verifies, a row that checks and covers an accepted log shows that the store logged that many entries and that the two logs agree so far, or the hash is broken |
| `AuditChain.CoversExactly` | crates/audit/src/store.rs:351-373 | for a row that checks and any accepted log, comparing the row's hash with the entry succeeds exactly if the log agrees with the store's up to that entry, or the hash is broken |
| `AuditChain.ReplacedLogPasses` | crates/audit/src/store.rs:353-373 | whatever replaces the log, the latest signature gets the verdict true |
| `AuditChain.SameHeadSameDetails` | crates/audit/src/store.rs:224-274 | two runs of `log` with the same head logged the same details, or the hash is broken |
| `AuditChain.RunsVerify` | crates/audit/src/store.rs:224-274 | every run of `log` leaves an accepted chain with the details' commitments |
| `AuditChain.OnlyCoveredColumnsMatter` | crates/audit/src/store.rs:318-349 | acceptance depends on commitment, previous hash and hash alone |
| `AuditChain.PrefixLinks` | crates/audit/src/store.rs:318-349 | a truncated chain is still accepted |
| `AdminKeys.AdminService.Bootstrap` | crates/server/src/main.rs:58-85 | happens once; the rows it writes; the invariant holds afterwards exactly if the audit keys were written |
| `AdminKeys.AdminService.Touch` | crates/admin/src/session.rs:126-143 | finds a session exactly if it is not idle too long, and otherwise removes it; no other session changes |
| `AdminKeys.AdminService.RequireAdmin` | crates/admin/src/handlers.rs:26-43 | lets through exactly live sessions with no gate pending |
| `AdminKeys.AdminService.CreateSession` | crates/admin/src/session.rs:39-63 | keeps the invariant exactly if the key is the stored one |
| `AdminKeys.StaleLogin` | crates/admin/src/handlers.rs:92-138 | a run in which the password changes between a login's check and its session keeps the invariant exactly if both keys are equal |
| `AdminKeys.HalfBootstrapped` | crates/admin/src/handlers.rs:160-230 | a run in which the audit keys were not written: the first password change answers 500 and the session's key is dead |
| `AdminKeys.AdminService.HandleLogin` | crates/admin/src/handlers.rs:92-138 | succeeds exactly for the stored name and a password whose derived key is the stored key, unless throttled, and otherwise changes nothing, with 429 or 401; the new session waits for MFA exactly if it is on |
| `AdminKeys.AdminService.HandleLoginCheck` | crates/admin/src/handlers.rs:92-125 | the first half of a login on its own: the same condition, and the row it saw is kept |
| `AdminKeys.AdminService.HandleLoginOpen` | crates/admin/src/handlers.rs:126-131 | the second half of a login on its own: a session with what the first half saw; the invariant survives exactly if the key is still the stored one |
| `AdminKeys.AdminService.HandleLogout` | crates/admin/src/handlers.rs:140-150 | removes the session and nothing else |
| `AdminKeys.AdminService.RewrapAuditKey` | crates/audit/src/store.rs:161-180 | the new key opens what the old one did |
| `AdminKeys.AdminService.RewrapTotpSecret` | crates/admin/src/store.rs:432-459 | likewise for the TOTP secret |
| `AdminKeys.AdminService.CompletePasswordChange` | crates/admin/src/session.rs:84-105 | only the changing session stays, under the new key |
| `AdminKeys.AdminService.HandleChangePassword` | crates/admin/src/handlers.rs:160-230 | keeps the invariant and both secrets; succeeds exactly for 12 bytes, a live session with no MFA gate and a current password whose derived key is the stored key; the row and the only session left afterwards, column by column; the answer otherwise; what happens without audit keys |
| `AdminKeys.AdminService.SpendRecoveryCode` | crates/admin/src/store.rs:402-427 | removes one occurrence of a known code |
| `AdminKeys.AdminService.HandleMfaVerify` | crates/admin/src/handlers.rs:248-324 | clears the gate of this session only, exactly for a live code or an unused recovery code, which is spent |
| `AdminKeys.AdminService.HandleMfaEnroll` | crates/admin/src/handlers.rs:338-372 | stores the secret under the stored key unless MFA is on |
| `AdminKeys.AdminService.HandleMfaConfirm` | crates/admin/src/handlers.rs:383-418 | turns MFA on exactly for a code of the stored secret |
| `AdminKeys.AdminService.HandleMfaDisable` | crates/admin/src/handlers.rs:428-468 | turns MFA off exactly with a session that is let through and a password whose derived key is the stored key; the answer otherwise |
| `AdminKeys.AdminService.Serve` | crates/admin/src/handlers.rs:92-468 | over every sequence of requests, logins in halves included: the invariant holds throughout exactly if no login opens its session after the key it checked was replaced; then every request granted came with what it takes (a login exactly with the name and password of the book, a change or an end of MFA with an open gate and that password, a second factor with the live code or a code handed out and not spent), the stored key, the TOTP secret, the MFA setting, the open gates and the spent recovery codes are what the answers amount to, no code is spent more often than it was handed out, and the audit key is unchanged |
| `AdminKeys.WholeLoginsNeverStale` | crates/admin/src/handlers.rs:92-138 | logins that nothing comes between never are |
| `AdminKeys.GateWasOpened` | crates/admin/src/handlers.rs:92-324 | a session without a pending gate had it open at the start, was opened by a login that saw MFA off, or passed a second factor |
| `AdminKeys.Position` | crates/admin/src/mfa.rs:77-86 | the first matching recovery code, exactly if there is one |
| `Calendar.DayNumberSteps` | crates/jmap/src/email.rs:164-178 | day numbers count calendar days from the epoch |
| `Calendar.CivilInvertsDayNumber` | crates/jmap/src/email.rs:164-178 | every day is mapped to a valid date with that day number |
| `Calendar.CivilOfDayNumber` | crates/jmap/src/email.rs:164-178 | and every valid date is found again |
| `Calendar.CivilFollowsCalendar` | crates/jmap/src/email.rs:164-178 | consecutive days are consecutive dates |
| `Calendar.CivilOfEpoch` | crates/jmap/src/email.rs:164-178 | day 0 is 1970-01-01 |
| `Calendar.NoOverflow` | crates/jmap/src/email.rs:152-178 | no intermediate value overflows for any i64 timestamp |
| `Timestamps.FieldsDetermineTimestamp` | crates/jmap/src/email.rs:152-162 | the printed fields are in range and give the timestamp back |
| `Timestamps.IsoReadsBack` | crates/jmap/src/email.rs:152-162 | for every timestamp, in any year, the text has its separators in place and the numbers read from it give the timestamp back |
| `Timestamps.OrderIsTime` | crates/jmap/src/email.rs:152-162 | for years -1 to 9999, text order is time order |
| `Timestamps.OrderExactly` | crates/jmap/src/email.rs:152-162 | no wider range around 0 to 9999 has that property |
| `Scheduled.EventStore.DueScheduledEvents` | crates/queue/src/scheduled.rs:79-93 | exactly the pending events that are due, each once |
| `Scheduled.EventStore.PendingEvents` | crates/queue/src/scheduled.rs:99-116 | exactly the pending events of this account, kind and message, each once |
| `Scheduled.EventStore.Patch` | crates/jmap/src/api.rs:116-124 | with nothing in between: cancels this message's timers, changes no other row, starts the new one, and keeps at most one pending |
| `Scheduled.PatchAlone` | crates/jmap/src/api.rs:441-467 | the same as a run of the list read, the marks and the insert |
| `Scheduled.EventStore.FireDueScheduledEvents` | crates/queue/src/worker.rs:210-301 | with nothing in between: every due event gets its verdict, the others stay, none due is left |
| `Scheduled.RunKeeps` | crates/queue/src/scheduled.rs:61-136 | in every run, however the statements of patches and passes interleave, no event is lost, changes its identity or returns to pending |
| `Scheduled.StepExactly` | crates/queue/src/scheduled.rs:61-136 | what each statement changes: a cancellation cancels, a mark fires or, for a nudge with a reply, cancels, the end of a patch adds its timer |
| `Scheduled.PassClearsDue` | crates/queue/src/worker.rs:210-230 | whatever patches do during a pass, no event that was due when it loaded stays pending |
| `Scheduled.FinalWithoutOverlap` | crates/queue/src/scheduled.rs:118-136 | while no event is in hand twice, fired and cancelled are final in every run |
| `Scheduled.FinalExactly` | crates/queue/src/scheduled.rs:118-136 | however the work at hand goes on, fired and cancelled are final exactly if the pass and the patches have no event in common |
| `Scheduled.CancelledThenFired` | crates/queue/src/worker.rs:239-301 | from an empty table, a cancelled timer ends as fired |
| `Scheduled.FiredThenCancelled` | crates/jmap/src/api.rs:116-124 | and a fired one as cancelled |
| `Scheduled.OneTimerWithoutOverlap` | crates/jmap/src/api.rs:441-467 | while no two patches that start the same timer overlap, at most one event per account, kind and payload is pending, in every run |
| `Scheduled.OneTimerExactly` | crates/jmap/src/api.rs:441-467 | however the work at hand goes on, one timer at most is left exactly if no two patches at work start the same one |
| `Scheduled.TwoTimers` | crates/jmap/src/api.rs:441-467 | from an empty table, two overlapping patches leave two timers |
| `Scheduled.OnePerMessageExactly` | crates/jmap/src/api.rs:116-124 | one timer per message in all runs without such an overlap exactly if no two ids in use spell the same message |
| `Scheduled.WrittenRow` | crates/queue/src/worker.rs:233 | the message id of every 64-bit row number is read back |
| `Contacts.ContactStore.ContactSet` | crates/jmap/src/api.rs:1161-1306 | the request's three loops compute the batch's result |
| `Contacts.ListAgrees` | crates/jmap/src/api.rs:1161-1265 | the in-memory list and the table agree throughout creates and updates |
| `Contacts.DistinctExactly` | crates/jmap/src/api.rs:1161-1306 | every batch in any order keeps emails distinct up to case exactly if the contacts were read or none could collide |
| `Contacts.CreateExactly` | crates/jmap/src/api.rs:1178-1212 | after any creates, one more adds its contact exactly if it is valid, no contact of the account has its email and the write succeeds, and changes nothing else |
| `Contacts.UpdateExactly` | crates/jmap/src/api.rs:1213-1266 | after any updates, one more replaces exactly the named fields of the account's row, if the result is valid, no other contact has its email and the write succeeds, and changes nothing else |
| `Contacts.DestroyedExactly` | crates/jmap/src/api.rs:1267-1306 | of what creates and updates left, exactly the account's rows named for destruction are gone |
| `Contacts.OthersUntouched` | crates/jmap/src/api.rs:1161-1306 | no request changes another account's contacts |
| `Subject.NormalizeSubject` | crates/store/src/threads.rs:117-134 | the loop ends; a key is the lower case of a text with no blank around it and no prefix in front, and the subject is prefixes in any case and spacing on that text, with blanks around them; a panic exactly as in `PanicsExactly` |
| `Subject.StackHasBareKey` | crates/store/src/threads.rs:117-134 | any stack of Re:, Fwd: and Fw: in any case and spacing on any subject panics or has the bare subject's key; in ASCII it does not panic |
| `Subject.PlainKey` | crates/store/src/threads.rs:117-134 | a subject with no blank around it, no prefix in front and no character across byte 3 or 4 is its own key, in lower case |
| `Subject.StackOnPlain` | crates/store/src/threads.rs:117-134 | any prefixes in front of it and blanks around it panic or give the same key |
| `Subject.SameKeyExactly` | crates/store/src/threads.rs:117-134 | two such ASCII subjects have the same key exactly if they are equal up to case |
| `Subject.Idempotent` | crates/store/src/threads.rs:117-134 | normalizing twice is normalizing once, for ASCII |
| `Subject.PanicsExactly` | crates/store/src/threads.rs:117-134 | a panic exactly if the trimmed subject is some prefixes and then a text whose character widths skip byte 3, or byte 4 when it does not start with "re:" |
| `Subject.PrefixVanishes` | crates/store/src/threads.rs:117-134 | one prefix does not change what is left, for any text that does not panic |
| `Header.RoundTripExactly` | crates/common/src/header.rs:67-108 | header and payload come back exactly for nonces under 65536 bytes |
| `Header.DecodeOfEncode` | crates/common/src/header.rs:67-108 | what comes back otherwise |
| `Header.Layout` | crates/common/src/header.rs:67-78 | each byte of an encoding: LTR1, version, algorithm number 1, 2 or 3, key and nonce length with the higher byte first, nonce |
| `Header.RefusedExactly` | crates/common/src/header.rs:80-108 | which buffers are refused, and with which error |
| `Header.AcceptedReencodes` | crates/common/src/header.rs:80-108 | every accepted buffer is the encoding of its header and payload |
| `Keywords.PlainSelectsTokens` | crates/store/src/messages.rs:244-262 | without comma and wildcards the query selects exactly the messages with the token up to case |
| `Keywords.SelectsTokensExactly` | crates/store/src/messages.rs:244-285 | and only for such keywords |
| `Keywords.SelectsKeywordExactly` | crates/jmap/src/api.rs:106-108 | query and `has_keyword` agree on every message exactly for keywords without comma, wildcards and letters |

## Left out

- The cryptographic primitives: only the equations above are assumed of them.
- HTML cleaning, MIME, DKIM, SPF, DMARC, DNS resolution, TLS itself, routers, configuration, the web client.
- Several workers at once, and interleavings inside one admin or `Contact/set` request other than login's two steps.
- The file system under the blob store: content is a set of hashes.
- Worker.Worker.RunPass: has no enqueue between its statements; the runs of the machine do.
- A crash between `finalize`'s row update and its report is the case of a report that was not sent.
- Delivery of reports into the sender's own mailbox, and blob removal by `Email/set`.
- Failed writes of replies to a client, and bytes outside ASCII in SMTP commands.
- The jitter is a real number; rounding of the floating-point product is not modelled.
- The enhanced status text of a reply is passed through, not formatted.
- The entry and the signature of the twentieth `log` call are one step; a crash between them is not modelled.
- Session lookups inside one request happen at one instant; storage errors other than missing audit keys are not modelled.
- Subject.Idempotent: is stated for ASCII, because the lower-casing of other text is a parameter.
- Fetching and reading of messages, mailboxes, threads and identities in the JMAP API.
