/** One delivery attempt over the network, with every remote answer an input:
    choosing an MX host under DANE (crates/queue/src/worker.rs, dane.rs) and
    running the SMTP envelope on the chosen connection. */
module Transport {
  import opened Text
  import opened Classify

  type Digest = seq<nat>

  const USAGE_DANE_EE: nat := 3
  const SELECTOR_SPKI: nat := 1
  const MATCHING_SHA256: nat := 1

  datatype TlsaRecord = TlsaRecord(certUsage: nat, selector: nat, matching: nat, certData: Digest)

  /** A TLSA lookup: DNSSEC validation failed, or validated records (none when
      the zone publishes none). */
  datatype Lookup = Untrusted | Validated(records: seq<TlsaRecord>)

  /** How a host answers: `spki` is the digest of the offered certificate's key,
      absent when the certificate does not parse. */
  datatype Server =
    | Unreachable
    | NoStartTls(plainOk: bool)
    | OffersTls(spki: Option<Digest>, handshakeOk: bool, caTrusted: bool)

  datatype Host = Host(exchange: string, builderOk: bool, tlsa: Lookup, server: Server)

  datatype ConnectOutcome = Connected(host: nat, tls: bool) | ConnectFailed(daneRequired: bool)

  // ------------------------------------------------------------------
  // The certificate check
  // ------------------------------------------------------------------

  /** `DaneVerifier::new`: the digests of the supported profile, in order. */
  function ExpectedDigests(records: seq<TlsaRecord>): seq<Digest> {
    if records == [] then []
    else
      var r := records[0];
      (if r.certUsage == USAGE_DANE_EE && r.selector == SELECTOR_SPKI && r.matching == MATCHING_SHA256 && |r.certData| == 32
       then [r.certData] else []) + ExpectedDigests(records[1..])
  }

  /** `verify_server_cert`. */
  predicate CertAccepted(expected: seq<Digest>, spki: Option<Digest>) {
    spki.Some? && spki.value in expected
  }

  /** The certificate's key is pinned by a DANE-EE, SPKI, SHA-256 record. */
  predicate Pinned(records: seq<TlsaRecord>, spki: Option<Digest>) {
    spki.Some? && |spki.value| == 32 && TlsaRecord(3, 1, 1, spki.value) in records
  }

  lemma {:induction false} AcceptedIffPinned(records: seq<TlsaRecord>, spki: Option<Digest>)
    ensures CertAccepted(ExpectedDigests(records), spki) <==> Pinned(records, spki)
  {
    if records == [] {
    } else {
      AcceptedIffPinned(records[1..], spki);
      assert records == [records[0]] + records[1..];
    }
  }

  // ------------------------------------------------------------------
  // Which hosts may be used, and how
  // ------------------------------------------------------------------

  function TrimEndDots(s: string): string {
    if s != [] && s[|s| - 1] == '.' then TrimEndDots(s[..|s| - 1]) else s
  }

  predicate OnlyDots(s: string) { forall i :: 0 <= i < |s| ==> s[i] == '.' }

  lemma {:induction false} TrimmedAwayExactly(s: string)
    ensures TrimEndDots(s) == "" <==> OnlyDots(s)
  {
    if s == [] || s[|s| - 1] != '.' {
    } else {
      TrimmedAwayExactly(s[..|s| - 1]);
      assert s == s[..|s| - 1] + ['.'];
    }
  }

  /** A host without a name, or whose client cannot be built. */
  predicate Skipped(h: Host) { OnlyDots(h.exchange) || !h.builderOk }

  predicate Protected(h: Host) { !Skipped(h) && (h.tlsa.Untrusted? || h.tlsa.records != []) }

  predicate UsableOverTls(h: Host) {
    && !Skipped(h) && h.tlsa.Validated?
    && h.server.OffersTls? && h.server.handshakeOk
    && (if h.tlsa.records == [] then h.server.caTrusted else Pinned(h.tlsa.records, h.server.spki))
  }

  predicate UsableInPlain(h: Host) {
    !Skipped(h) && h.tlsa == Validated([]) && h.server.NoStartTls? && h.server.plainOk
  }

  /** `connect_opportunistic`: the first host, in order, that may be used at all;
      plaintext only where the TLSA lookup was validly empty and STARTTLS is not
      offered; TLS to a host with TLSA records only with a pinned key; and on
      failure, `daneRequired` exactly if some attempted host was protected. */
  method ConnectOpportunistic(hosts: seq<Host>) returns (r: ConnectOutcome)
    ensures match r
      case Connected(k, tls) =>
        && k < |hosts|
        && (if tls then UsableOverTls(hosts[k]) else UsableInPlain(hosts[k]))
        && forall j :: 0 <= j < k ==> !UsableOverTls(hosts[j]) && !UsableInPlain(hosts[j])
      case ConnectFailed(daneRequired) =>
        && (forall j :: 0 <= j < |hosts| ==> !UsableOverTls(hosts[j]) && !UsableInPlain(hosts[j]))
        && (daneRequired <==> exists j :: 0 <= j < |hosts| && Protected(hosts[j]))
  {
    var daneRequired := false;
    for k := 0 to |hosts|
      invariant forall j :: 0 <= j < k ==> !UsableOverTls(hosts[j]) && !UsableInPlain(hosts[j])
      invariant daneRequired <==> exists j :: 0 <= j < k && Protected(hosts[j])
    {
      var h := hosts[k];
      TrimmedAwayExactly(h.exchange);
      if TrimEndDots(h.exchange) == "" || !h.builderOk {
        continue;
      }
      if h.tlsa.Untrusted? {
        daneRequired := true;
        continue;
      }
      if h.tlsa.records != [] {
        daneRequired := true;
        AcceptedIffPinned(h.tlsa.records, if h.server.OffersTls? then h.server.spki else None);
        if h.server.OffersTls? && h.server.handshakeOk
           && CertAccepted(ExpectedDigests(h.tlsa.records), h.server.spki) {
          return Connected(k, true);
        }
        continue;
      }
      match h.server
      case OffersTls(_, handshakeOk, caTrusted) =>
        if handshakeOk && caTrusted { return Connected(k, true); }
      case NoStartTls(plainOk) =>
        if plainOk { return Connected(k, false); }
      case Unreachable =>
    }
    r := ConnectFailed(daneRequired);
  }

  // ------------------------------------------------------------------
  // MAIL, RCPT per recipient, DATA once
  // ------------------------------------------------------------------

  /** The remote's answers to one envelope. */
  datatype Dialogue = Dialogue(mail: SendResult, rcpts: seq<SendResult>, data: SendResult)

  const NO_OUTCOME := Transient(Report(None, None, "internal: no outcome computed"))

  /** What one recipient's outcome should be. */
  function RcptOutcome(d: Dialogue, i: nat): Outcome
    requires i < |d.rcpts|
  {
    if !d.mail.Sent? then ClassifySendResult(d.mail)
    else if !d.rcpts[i].Sent? then ClassifySendResult(d.rcpts[i])
    else ClassifySendResult(d.data)
  }

  /** The answer that decides for one recipient: the first of MAIL, its RCPT and DATA that
      is not a success, or DATA's. */
  ghost function Deciding(d: Dialogue, i: nat): SendResult
    requires i < |d.rcpts|
  {
    var answers := [d.mail, d.rcpts[i], d.data];
    if exists k :: 0 <= k < 3 && FirstRefusal(answers, k) then
      var k :| 0 <= k < 3 && FirstRefusal(answers, k);
      answers[k]
    else d.data
  }

  ghost predicate FirstRefusal(answers: seq<SendResult>, k: nat) {
    k < |answers| && !answers[k].Sent? && forall j :: 0 <= j < k ==> answers[j].Sent?
  }

  lemma {:induction false} OutcomeExactly(d: Dialogue, i: nat)
    requires i < |d.rcpts|
    ensures RightOutcome(Deciding(d, i), RcptOutcome(d, i))
  {
    var answers := [d.mail, d.rcpts[i], d.data];
    if !d.mail.Sent? {
      assert FirstRefusal(answers, 0);
    } else if !d.rcpts[i].Sent? {
      assert FirstRefusal(answers, 1);
    } else if !d.data.Sent? {
      assert FirstRefusal(answers, 2);
    }
  }

  /** `run_envelope`: one outcome per recipient, in order; DATA's outcome goes to
      exactly the accepted recipients and the fallback is never used. */
  method RunEnvelope(d: Dialogue) returns (outcomes: seq<Outcome>)
    ensures |outcomes| == |d.rcpts|
    ensures forall i :: 0 <= i < |d.rcpts| ==> outcomes[i] == RcptOutcome(d, i)
    ensures forall i :: 0 <= i < |d.rcpts| ==> RightOutcome(Deciding(d, i), outcomes[i])
  {
    forall i | 0 <= i < |d.rcpts| ensures RightOutcome(Deciding(d, i), RcptOutcome(d, i)) {
      OutcomeExactly(d, i);
    }
    var n := |d.rcpts|;
    if !d.mail.Sent? {
      return seq(n, _ => ClassifySendResult(d.mail));
    }
    var buffer := new Option<Outcome>[n](_ => None);
    var accepted: seq<nat> := [];
    for i := 0 to n
      invariant forall k :: 0 <= k < |accepted| ==> accepted[k] < i && d.rcpts[accepted[k]].Sent?
      invariant forall j :: 0 <= j < i ==>
        if d.rcpts[j].Sent? then j in accepted else buffer[j] == Some(ClassifySendResult(d.rcpts[j]))
    {
      if d.rcpts[i].Sent? {
        accepted := accepted + [i];
      } else {
        buffer[i] := Some(ClassifySendResult(d.rcpts[i]));
      }
    }
    if accepted != [] {
      var outcome := ClassifySendResult(d.data);
      for k := 0 to |accepted|
        invariant forall j :: 0 <= j < n ==>
          if d.rcpts[j].Sent? then j in accepted[..k] ==> buffer[j] == Some(outcome)
          else buffer[j] == Some(ClassifySendResult(d.rcpts[j]))
      {
        buffer[accepted[k]] := Some(outcome);
      }
      assert accepted[..|accepted|] == accepted;
    }
    assert forall j :: 0 <= j < n ==> buffer[j].Some?;
    outcomes := [];
    for i := 0 to n
      invariant |outcomes| == i
      invariant forall j :: 0 <= j < i ==> outcomes[j] == RcptOutcome(d, j)
    {
      outcomes := outcomes + [match buffer[i] case Some(o) => o case None => NO_OUTCOME];
    }
  }

  predicate Carries2xx(r: SendResult) {
    (r.UnexpectedReply? || r.AuthenticationFailed?) && r.code / 100 == 2
  }

  predicate Carries5xx(r: SendResult) {
    (r.UnexpectedReply? || r.AuthenticationFailed?) && r.code / 100 == 5
  }

  /** A recipient counts as delivered exactly if its RCPT and the DATA were
      accepted, or a refused MAIL or RCPT carried a 2xx code; and as failed exactly if
      the first refusal was a 5xx reply. */
  lemma {:induction false} DeliveredExactly(d: Dialogue, i: nat)
    requires i < |d.rcpts|
    ensures RcptOutcome(d, i).Delivered? <==>
      || (d.mail.Sent? && d.rcpts[i].Sent? && (d.data.Sent? || Carries2xx(d.data)))
      || Carries2xx(d.mail)
      || (d.mail.Sent? && Carries2xx(d.rcpts[i]))
    ensures RcptOutcome(d, i).Permanent? <==>
      || Carries5xx(d.mail)
      || (d.mail.Sent? && Carries5xx(d.rcpts[i]))
      || (d.mail.Sent? && d.rcpts[i].Sent? && Carries5xx(d.data))
  {
    OutcomeExactly(d, i);
  }
}
