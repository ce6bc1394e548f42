/** Row types of the outbound queue (crates/queue/src/types.rs, schema.rs).
    A table is a sequence in row-id order: SQLite numbers rows one past the
    largest id and nothing deletes from these tables, so index i holds row i + 1. */
module QueueTypes {
  import opened Text
  import opened Classify
  import Input

  datatype RcptState = Ready | Claimed | Deferred | Delivered | Failed | Expired
  {
    predicate IsTerminal() { Delivered? || Failed? || Expired? }
  }

  datatype Outbound = Outbound(
    accountId: int, blob: string, envelopeFrom: string,
    createdAt: int, expiresAt: int, isDsn: bool)

  datatype Rcpt = Rcpt(
    outboundId: nat, rcptTo: string, domain: string, dsnNotify: string,
    state: RcptState, attempts: int, nextAttemptAt: int, claimedAt: int,
    last: Report, delayedDsnSent: bool)
  {
    /** The columns no statement of the crate ever updates. */
    function Identity(): (nat, string, string, string) { (outboundId, rcptTo, domain, dsnNotify) }
  }

  /** What `claim_batch` copies into memory for one recipient. */
  datatype ClaimedRcpt = ClaimedRcpt(
    id: nat, outboundId: nat, rcptTo: string, domain: string, dsnNotify: string,
    attempts: int, delayedDsnSent: bool)

  datatype NewOutbound = NewOutbound(
    accountId: int, envelopeFrom: string, recipients: seq<string>, isDsn: bool)

  datatype DsnAction = DsnFailed | DsnDelayed

  /** A notification handed to local delivery. */
  datatype Dsn = Dsn(rcpt: nat, action: DsnAction)

  /** The envelope check at the top of `enqueue`. */
  predicate ValidEnvelope(msg: NewOutbound) {
    && (msg.envelopeFrom == "" || Input.ValidEmailAddress(msg.envelopeFrom))
    && ValidRecipients(msg.recipients)
  }

  predicate ValidRecipients(recipients: seq<string>) {
    && 1 <= |recipients| <= 100
    && forall i :: 0 <= i < |recipients| ==> Input.ValidEmailAddress(recipients[i])
  }
}
