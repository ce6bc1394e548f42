/** From an SMTP reply or connection failure to what the queue does next
    (crates/queue/src/classify.rs). */
module Classify {
  import opened Text

  /** Enhanced status code x.y.z. */
  type Esc = (nat, nat, nat)

  datatype Report = Report(code: Option<nat>, status: Option<Esc>, detail: string)

  datatype Outcome = Delivered | Transient(report: Report) | Permanent(report: Report)

  /** The result of one client command: success, a reply the client did not
      expect, or an error without a reply. */
  datatype SendResult =
    | Sent
    | UnexpectedReply(code: nat, esc: Esc, message: string)
    | AuthenticationFailed(code: nat, esc: Esc, message: string)
    | OtherError(detail: string)

  function FormatEsc(esc: Esc): Option<Esc> {
    if esc == (0, 0, 0) then None else Some(esc)
  }

  function ClassifyCode(code: nat, status: Option<Esc>, detail: string): Outcome {
    var report := Report(Some(code), status, detail);
    match code / 100
    case 2 => Delivered
    case 4 => Transient(report)
    case 5 => Permanent(report)
    case _ => Transient(report)
  }

  function ClassifySendResult(result: SendResult): Outcome {
    match result
    case Sent => Delivered
    case UnexpectedReply(code, esc, message) => ClassifyCode(code, FormatEsc(esc), message)
    case AuthenticationFailed(code, esc, message) => ClassifyCode(code, FormatEsc(esc), message)
    case OtherError(detail) => Transient(Report(None, None, detail))
  }

  function ClassifyConnectFailure(detail: string, hardDnsFailure: bool): Outcome {
    if hardDnsFailure then Permanent(Report(None, None, detail)) else Transient(Report(None, None, detail))
  }

  /** What the queue should make of an answer: a success or a 2xx reply is a delivery, a
      5xx reply is final, anything else is to be tried again; what is not a delivery
      is reported with the reply's own code, status and text, or with the error's text. */
  ghost predicate RightOutcome(answer: SendResult, o: Outcome) {
    match answer
    case Sent => o.Delivered?
    case OtherError(detail) => o.Transient? && o.report == Report(None, None, detail)
    case _ =>
      && (o.Delivered? <==> 200 <= answer.code <= 299)
      && (o.Permanent? <==> 500 <= answer.code <= 599)
      && (!o.Delivered? ==>
            && o.report.code == Some(answer.code) && o.report.detail == answer.message
            && (if answer.esc == (0, 0, 0) then o.report.status.None? else o.report.status == Some(answer.esc)))
  }

  function ClassifyDaneFailure(detail: string): Outcome { Permanent(Report(None, None, detail)) }
}
