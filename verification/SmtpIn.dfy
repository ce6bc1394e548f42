/** The inbound SMTP command loop (crates/smtp-in/src/session.rs). */
module SmtpIn {
  import opened Text
  import opened SmtpWire
  import opened SmtpTrace
  import opened SmtpSession
  import Input

  datatype Resolved = Resolved(address: string, accountId: int)

  datatype Verdict = Clean | Spam | Reject | Defer

  /** What the session asks others, each answer indexed by the length of the
      history so that it may change over time. */
  datatype Deps = Deps(
    maxMessageSize: nat,
    tlsAvailable: bool,
    resolve: (nat, string) -> Option<int>,      // mailbox or catch-all account
    verdict: nat -> Verdict,
    delivered: (nat, nat) -> bool,              // did storing for recipient k succeed
    isIpv4: string -> bool, isIpv6: string -> bool)

  type History = seq<Event<Resolved>>

  class Envelope {
    var heloDomain: Option<string>
    var mailFrom: Option<string>
    var rcptTo: seq<Resolved>

    constructor ()
      ensures heloDomain.None? && mailFrom.None? && rcptTo == []
    {
      heloDomain, mailFrom, rcptTo := None, None, [];
    }

    method Reset()
      modifies this
      ensures mailFrom.None? && rcptTo == [] && heloDomain == old(heloDomain)
    {
      mailFrom, rcptTo := None, [];
    }

    /** The envelope is what the history says. */
    ghost predicate Faithful(t: History)
      reads this
    {
      mailFrom == Mail(t) && rcptTo == Rcpts(t) && heloDomain.Some? == Greeted(t)
    }
  }

  predicate ValidHeloDomain(value: string, deps: Deps) {
    Input.ValidDomainName(value) ||
    (|value| >= 2 && value[0] == '[' && value[|value| - 1] == ']' &&
     var inner := value[1..|value| - 1];
     if "IPv6:" <= inner then deps.isIpv6(inner[5..]) else deps.isIpv4(inner))
  }

  /** An address literal: IPv6 after its tag, and otherwise IPv4. */
  ghost predicate Literal(inner: string, deps: Deps) {
    || (exists v6 :: inner == "IPv6:" + v6 && deps.isIpv6(v6))
    || ((forall v6 :: inner != "IPv6:" + v6) && deps.isIpv4(inner))
  }

  /** A greeting is a domain name, or an address literal in brackets. */
  lemma {:induction false} HeloDomainExactly(value: string, deps: Deps)
    ensures ValidHeloDomain(value, deps) <==>
      Input.ValidDomainName(value) || exists inner :: value == ['['] + inner + [']'] && Literal(inner, deps)
  {
    if |value| >= 2 && value[0] == '[' && value[|value| - 1] == ']' {
      var inner := value[1..|value| - 1];
      assert value == ['['] + inner + [']'];
      TagExactly(inner, deps);
    }
    forall inner | value == ['['] + inner + [']'] ensures |value| >= 2 && inner == value[1..|value| - 1] {
    }
  }

  lemma {:induction false} TagExactly(inner: string, deps: Deps)
    ensures Literal(inner, deps) <==> if "IPv6:" <= inner then deps.isIpv6(inner[5..]) else deps.isIpv4(inner)
  {
    var tag := "IPv6:";
    if tag <= inner { assert inner == tag + inner[5..]; }
    forall v6 | inner == tag + v6 ensures tag <= inner && v6 == inner[5..] {
    }
  }

  // ------------------------------------------------------------------
  // What each command is answered
  // ------------------------------------------------------------------

  function HeloAnswer(arg: string, deps: Deps): Event<Resolved> {
    if ValidHeloDomain(Trim(arg), deps) then HeloOk(Trim(arg)) else Other(501)
  }

  function MailAnswer(greeted: bool, arg: string): Event<Resolved> {
    if !greeted then Other(503)
    else match ParseAddrParam(arg, "FROM:")
      case Some(addr) => MailOk(addr)
      case None => Other(501)
  }

  function RcptAnswer(inMail: bool, count: nat, arg: string, now: nat, deps: Deps): Event<Resolved> {
    if !inMail then Other(503)
    else if count >= MAX_RECIPIENTS then Other(452)
    else match ParseAddrParam(arg, "TO:")
      case None => Other(501)
      case Some(addr) =>
        if !Input.ValidEmailAddress(addr) then Other(501)
        else match deps.resolve(now, addr)
          case Some(account) => RcptOk(Resolved(addr, account))
          case None => Other(550)
  }

  /** The final reply: the scanner's refusal, or success if anyone got a copy. */
  function DataCode(n: nat, now: nat, deps: Deps): nat {
    match deps.verdict(now)
    case Reject => 550
    case Defer => 451
    case _ => if exists k :: 0 <= k < n && deps.delivered(now, k) then 250 else 451
  }

  function StartTlsAnswer(isTls: bool, arg: string, deps: Deps): Event<Resolved> {
    if isTls then Other(503)
    else if !deps.tlsAvailable then Other(502)
    else if arg != "" then Other(501)
    else TlsOk
  }

  function DataReply(rest: string, t: History, deps: Deps): Answer<Resolved> {
    if Mail(t).None? || Rcpts(t) == [] then Answer([Other(503)], None, rest)
    else
      var (result, left) := Decode(rest, [], deps.maxMessageSize);
      match result
      case Data(raw) => Answer([Handed(Mail(t).value, Rcpts(t), raw, DataCode(|Rcpts(t)|, |t|, deps))], None, left)
      case DataTooLarge => Answer([Other(552)], Some(Closed), rest)
      case DataIo => Answer([], Some(Closed), rest)
  }

  /** The commands that are answered with one reply, and read nothing else. */
  function SimpleReply(c: Command, t: History, isTls: bool, deps: Deps): Event<Resolved> {
    match c
    case Helo(arg) => HeloAnswer(arg, deps)
    case Tls(arg) => StartTlsAnswer(isTls, arg, deps)
    case MailFrom(arg) => MailAnswer(Greeted(t), arg)
    case RcptTo(arg) => RcptAnswer(Mail(t).Some?, |Rcpts(t)|, arg, |t|, deps)
    case Rset => RsetOk
    case Noop => Other(250)
    case _ => Other(502)
  }

  /** What the history so far and the input after the line call for. */
  function ReplyTo(rest: string, c: Command, t: History, isTls: bool, deps: Deps): Answer<Resolved> {
    match c
    case DataFollows => DataReply(rest, t, deps)
    case Quit => Answer([Other(221)], Some(Closed), rest)
    case _ =>
      var e := SimpleReply(c, t, isTls, deps);
      Answer([e], if e.TlsOk? then Some(StartTls) else None, rest)
  }

  ghost function Serves(isTls: bool, deps: Deps): Server<Resolved> {
    (rest, text, t) => ReplyTo(rest, ParseCommand(text), t, isTls, deps)
  }

  // ------------------------------------------------------------------
  // The server
  // ------------------------------------------------------------------

  method OnHelo(env: Envelope, arg: string, deps: Deps, t: History) returns (t': History)
    requires env.Faithful(t)
    modifies env
    ensures env.Faithful(t') && t' == t + [HeloAnswer(arg, deps)]
  {
    var domain := Trim(arg);
    if !ValidHeloDomain(domain, deps) {
      t' := Say(t, 501);
      return;
    }
    env.heloDomain := Some(domain);
    env.Reset();
    OneMore(t, HeloOk(domain));
    t' := t + [HeloOk(domain)];
  }

  method OnMail(env: Envelope, arg: string, t: History) returns (t': History)
    requires env.Faithful(t)
    modifies env
    ensures env.Faithful(t') && t' == t + [MailAnswer(Greeted(t), arg)]
  {
    if env.heloDomain.None? {
      t' := Say(t, 503);
      return;
    }
    match ParseAddrParam(arg, "FROM:")
    case None => t' := Say(t, 501);
    case Some(addr) =>
      env.Reset();
      env.mailFrom := Some(addr);
      OneMore(t, MailOk(addr));
      t' := t + [MailOk(addr)];
  }

  method OnRcpt(env: Envelope, arg: string, deps: Deps, t: History) returns (t': History)
    requires env.Faithful(t)
    modifies env
    ensures env.Faithful(t') && t' == t + [RcptAnswer(Mail(t).Some?, |Rcpts(t)|, arg, |t|, deps)]
  {
    var answer := RcptAnswer(env.mailFrom.Some?, |env.rcptTo|, arg, |t|, deps);
    OneMore(t, answer);
    if answer.RcptOk? {
      env.rcptTo := env.rcptTo + [answer.rcpt];
    }
    t' := t + [answer];
  }

  /** DATA: refused out of sequence; otherwise the decoded message goes to the
      scanner and, unless refused, to every recipient; too much data closes. */
  method OnData(reader: Reader, env: Envelope, deps: Deps, t: History) returns (next: Option<LoopOutcome>, t': History)
    requires reader.Valid() && env.Faithful(t)
    modifies reader`pos, env
    ensures reader.Valid() && old(reader.pos) <= reader.pos && env.Faithful(t')
    ensures Did(DataReply(old(reader.Rest()), t, deps), t, next, t', reader.Rest())
  {
    next := None;
    if env.mailFrom.None? || env.rcptTo == [] {
      t' := Say(t, 503);
      return;
    }
    var read := reader.ReadData(deps.maxMessageSize);
    match read
    case Data(raw) =>
      var handed := Handed(env.mailFrom.value, env.rcptTo, raw, DataCode(|env.rcptTo|, |t|, deps));
      env.Reset();
      OneMore(t, handed);
      t' := t + [handed];
    case DataTooLarge =>
      t' := Say(t, 552);
      next := Some(Closed);
    case DataIo =>
      t', next := t, Some(Closed);
      assert t + [] == t;
  }

  /** The commands that read nothing more. */
  method OnSimple(env: Envelope, deps: Deps, isTls: bool, c: Command, t: History) returns (t': History)
    requires env.Faithful(t)
    modifies env
    ensures t' == t + [SimpleReply(c, t, isTls, deps)] && (t' != t + [TlsOk] ==> env.Faithful(t'))
  {
    match c
    case Helo(arg) => t' := OnHelo(env, arg, deps, t);
    case Tls(arg) =>
      if isTls {
        t' := Say(t, 503);
      } else if !deps.tlsAvailable {
        t' := Say(t, 502);
      } else if arg != "" {
        t' := Say(t, 501);
      } else {
        t' := t + [TlsOk];
      }
    case MailFrom(arg) => t' := OnMail(env, arg, t);
    case RcptTo(arg) => t' := OnRcpt(env, arg, deps, t);
    case Rset =>
      env.Reset();
      OneMore(t, RsetOk);
      t' := t + [RsetOk];
    case Noop => t' := Say(t, 250);
    case _ => t' := Say(t, 502);
  }

  /** The commands that need no more than their line. */
  method OnLine(env: Envelope, deps: Deps, isTls: bool, c: Command, t: History, ghost rest: string)
    returns (next: Option<LoopOutcome>, t': History)
    requires env.Faithful(t) && !c.DataFollows?
    modifies env
    ensures next != Some(StartTls) ==> env.Faithful(t')
    ensures Did(ReplyTo(rest, c, t, isTls, deps), t, next, t', rest)
  {
    next := None;
    if c.Quit? {
      t' := Say(t, 221);
      next := Some(Closed);
    } else {
      t' := OnSimple(env, deps, isTls, c, t);
      if t'[|t|].TlsOk? {
        next := Some(StartTls);
      }
    }
  }

  /** One command: exactly the reply that the history and the input call for. */
  method OnCommand(reader: Reader, env: Envelope, deps: Deps, isTls: bool, c: Command, t: History)
    returns (next: Option<LoopOutcome>, t': History)
    requires reader.Valid() && env.Faithful(t)
    modifies reader`pos, env
    ensures reader.Valid() && old(reader.pos) <= reader.pos
    ensures next != Some(StartTls) ==> env.Faithful(t')
    ensures Did(ReplyTo(old(reader.Rest()), c, t, isTls, deps), t, next, t', reader.Rest())
  {
    if c.DataFollows? {
      next, t' := OnData(reader, env, deps, t);
    } else {
      next, t' := OnLine(env, deps, isTls, c, t, reader.Rest());
    }
  }

  /** A line read and answered: what is left of the session is the session from there. */
  method TakeLine(reader: Reader, env: Envelope, deps: Deps, isTls: bool, t: History)
    returns (next: Option<LoopOutcome>, t': History)
    requires reader.Valid() && env.Faithful(t)
    modifies reader`pos, env
    ensures reader.Valid() && (next.None? ==> old(reader.pos) < reader.pos && env.Faithful(t'))
    ensures Continues(Session(Serves(isTls, deps), old(reader.Rest()), t), Serves(isTls, deps), next, t', reader.Rest())
  {
    var line := reader.ReadLineBounded(MAX_COMMAND_LINE);
    match line
    case Eof => next, t' := Some(Closed), t;
    case TooLong =>
      t' := Say(t, 500);
      next := Some(Closed);
    case Line(text) =>
      next, t' := OnCommand(reader, env, deps, isTls, ParseCommand(text), t);
      LineContinues(Serves(isTls, deps), old(reader.Rest()), text, t, next, t', reader.Rest());
  }

  /** The loop: for every byte sequence the client sends, exactly the session that the
      lines of the input call for. */
  method CommandLoop(reader: Reader, env: Envelope, deps: Deps, isTls: bool, start: History)
    returns (outcome: LoopOutcome, t: History)
    requires reader.Valid() && env.Faithful(start)
    modifies reader`pos, env
    ensures reader.Valid() && (t, outcome) == Session(Serves(isTls, deps), old(reader.Rest()), start)
  {
    t := start;
    while true
      invariant reader.Valid() && env.Faithful(t)
      invariant Session(Serves(isTls, deps), reader.Rest(), t) == Session(Serves(isTls, deps), old(reader.Rest()), start)
      decreases |reader.input| - reader.pos
    {
      var next;
      next, t := TakeLine(reader, env, deps, isTls, t);
      if next.Some? {
        return next.value, t;
      }
    }
  }

  /** A connection: the plaintext session, and after STARTTLS, unless bytes were
      pipelined or the handshake fails, a session over TLS that goes on from its
      history. */
  ghost function Connection(plain: string, pipelined: bool, handshakeOk: bool, tls: string, deps: Deps): History {
    var (t, outcome) := Session(Serves(false, deps), plain, []);
    if outcome.Closed? || pipelined || !handshakeOk then t else Session(Serves(true, deps), tls, t).0
  }

  method HandleConnection(plain: string, pipelined: bool, handshakeOk: bool, tls: string, deps: Deps)
    returns (t: History)
    ensures t == Connection(plain, pipelined, handshakeOk, tls, deps)
  {
    var reader := new Reader(plain);
    var env := new Envelope();
    var outcome;
    outcome, t := CommandLoop(reader, env, deps, false, []);
    if !outcome.StartTls? || pipelined || !handshakeOk {
      return;
    }
    Announces(false, deps);
    UpgradeEndsWithTls(Serves(false, deps), plain, []);
    FreshAfterTls(t);
    var tlsReader := new Reader(tls);
    env := new Envelope();
    outcome, t := CommandLoop(tlsReader, env, deps, true, t);
  }

  lemma {:induction false} Announces(isTls: bool, deps: Deps)
    ensures AnnouncesTls(Serves(isTls, deps))
  {
    forall rest, text, t | Serves(isTls, deps)(rest, text, t).next == Some(StartTls)
      ensures Serves(isTls, deps)(rest, text, t).replies == [TlsOk]
    {
      TlsAlone(rest, ParseCommand(text), t, isTls, deps);
    }
  }

  lemma {:induction false} TlsAlone(rest: string, c: Command, t: History, isTls: bool, deps: Deps)
    requires ReplyTo(rest, c, t, isTls, deps).next == Some(StartTls)
    ensures ReplyTo(rest, c, t, isTls, deps).replies == [TlsOk]
  {
  }

  /** The connection stays with what was said in plaintext if that did not end with an
      accepted STARTTLS, if bytes were pipelined after it or if the handshake failed; and
      otherwise goes on over TLS, with nothing said before counting. */
  lemma {:induction false} UpgradeExactly(plain: string, pipelined: bool, handshakeOk: bool, tls: string, deps: Deps)
    ensures var before := Session(Serves(false, deps), plain, []);
      var t := Connection(plain, pipelined, handshakeOk, tls, deps);
      && (before.1.Closed? || pipelined || !handshakeOk ==> t == before.0)
      && (before.1.StartTls? && !pipelined && handshakeOk ==>
            && t == Session(Serves(true, deps), tls, before.0).0 && before.0 != [] && before.0[|before.0| - 1] == TlsOk
            && Mail(before.0).None? && Rcpts(before.0) == [] && !Greeted(before.0) && Authenticated(before.0).None?)
  {
    var before := Session(Serves(false, deps), plain, []);
    if before.1.StartTls? {
      Announces(false, deps);
      UpgradeEndsWithTls(Serves(false, deps), plain, []);
      FreshAfterTls(before.0);
    }
  }

  // ------------------------------------------------------------------
  // What every session keeps
  // ------------------------------------------------------------------

  /** What it takes, after history t, for this event to come next. */
  ghost predicate Granted(t: History, e: Event<Resolved>, deps: Deps) {
    match e
    case HeloOk(domain) => ValidHeloDomain(domain, deps)
    case MailOk(_) => exists j: nat :: GreetedAt(t, j)
    case RcptOk(r) =>
      && Mail(t).Some? && |Rcpts(t)| < 100
      && Input.ValidEmailAddress(r.address) && deps.resolve(|t|, r.address) == Some(r.accountId)
    case TlsOk => deps.tlsAvailable
    case AuthOk(_, _) => false
    case Handed(_, rcpts, _, code) => RightCode(code, deps.verdict(|t|), Stored(|rcpts|, |t|, deps))
    case _ => true
  }

  /** Somebody got a copy. */
  ghost predicate Stored(n: nat, now: nat, deps: Deps) { exists k :: 0 <= k < n && deps.delivered(now, k) }

  /** 250 exactly for a message that the scanner let pass and that somebody got; 550
      exactly for a rejected one; otherwise the client is to try again. */
  predicate RightCode(code: nat, verdict: Verdict, stored: bool) {
    && (code == 250 <==> (verdict.Clean? || verdict.Spam?) && stored)
    && (code == 550 <==> verdict.Reject?)
    && (code == 250 || code == 550 || code == 451)
  }

  ghost predicate AllGranted(t: History, deps: Deps) { forall i: nat :: i < |t| ==> Granted(t[..i], t[i], deps) }

  /** The command asks for what the event grants. */
  predicate Spells(c: Command, e: Event<Resolved>) {
    match e
    case HeloOk(domain) => c.Helo? && Trim(c.arg) == domain
    case MailOk(sender) => c.MailFrom? && ParseAddrParam(c.arg, "FROM:") == Some(sender)
    case RcptOk(r) => c.RcptTo? && ParseAddrParam(c.arg, "TO:") == Some(r.address)
    case RsetOk => c.Rset?
    case TlsOk => c == Tls("")
    case Handed(_, _, _, _) => c.DataFollows?
    case _ => true
  }

  /** The client asked for everything granted since `from`. */
  ghost predicate AllAsked(input: string, from: nat, t: History) {
    forall i :: from <= i < |t| && !t[i].Other? ==> Asked(input, t[i])
  }

  ghost predicate Asked(input: string, e: Event<Resolved>) { exists c :: SentCommand(input, c) && Spells(c, e) }

  /** Whatever was granted had to be, whatever was handed on is justified, and since
      `from` it was asked for and sent. */
  ghost predicate Invariant(input: string, from: nat, t: History, deps: Deps) {
    && AllJustified(t) && |Rcpts(t)| <= MAX_RECIPIENTS && AllSent(input, from, t, deps.maxMessageSize)
    && AllGranted(t, deps) && AllAsked(input, from, t)
  }

  lemma {:induction false} GrantedKept(input: string, from: nat, t: History, deps: Deps, e: Event<Resolved>)
    requires AllGranted(t, deps) && AllAsked(input, from, t) && Granted(t, e, deps) && (e.Other? || Asked(input, e))
    ensures AllGranted(t + [e], deps) && AllAsked(input, from, t + [e])
  {
    var t' := t + [e];
    forall i: nat | i < |t'| ensures Granted(t'[..i], t'[i], deps) {
      if i < |t| {
        assert t'[..i] == t[..i] && Granted(t[..i], t[i], deps);
      } else {
        assert t'[..i] == t;
      }
    }
  }

  /** One more event that is no message. */
  lemma {:induction false} EventKeeps(input: string, from: nat, t: History, deps: Deps, e: Event<Resolved>)
    requires Invariant(input, from, t, deps) && !e.Handed? && Granted(t, e, deps) && (e.Other? || Asked(input, e))
    ensures Invariant(input, from, t + [e], deps)
  {
    StaysJustified(t, e);
    OneMore(t, e);
    GrantedKept(input, from, t, deps, e);
  }

  lemma {:induction false} SimpleGranted(c: Command, t: History, isTls: bool, deps: Deps)
    ensures Granted(t, SimpleReply(c, t, isTls, deps), deps) && !SimpleReply(c, t, isTls, deps).Handed?
    ensures SimpleReply(c, t, isTls, deps).Other? || Spells(c, SimpleReply(c, t, isTls, deps))
  {
    GreetedExactly(t);
  }

  lemma {:induction false} ReplyKeeps(input: string, from: nat, rest: string, c: Command, t: History, isTls: bool, deps: Deps)
    requires Invariant(input, from, t, deps) && SentCommand(input, c) && (c.DataFollows? ==> FollowsData(rest, input))
    ensures Invariant(input, from, t + ReplyTo(rest, c, t, isTls, deps).replies, deps)
  {
    match c
    case DataFollows => DataKeeps(input, from, rest, t, deps);
    case Quit => EventKeeps(input, from, t, deps, Other(221));
    case _ =>
      SimpleGranted(c, t, isTls, deps);
      EventKeeps(input, from, t, deps, SimpleReply(c, t, isTls, deps));
  }

  lemma {:induction false} DataKeeps(input: string, from: nat, rest: string, t: History, deps: Deps)
    requires Invariant(input, from, t, deps) && FollowsData(rest, input) && SentCommand(input, DataFollows)
    ensures Invariant(input, from, t + DataReply(rest, t, deps).replies, deps)
  {
    if Mail(t).None? || Rcpts(t) == [] {
      EventKeeps(input, from, t, deps, Other(503));
    } else {
      var result := Decode(rest, [], deps.maxMessageSize).0;
      match result
      case Data(raw) =>
        HandedKeeps(input, from, t, deps, raw, Handed(Mail(t).value, Rcpts(t), raw, DataCode(|Rcpts(t)|, |t|, deps)));
      case DataTooLarge => EventKeeps(input, from, t, deps, Other(552));
      case DataIo => assert t + [] == t;
    }
  }

  lemma {:induction false} HandedKeeps(input: string, from: nat, t: History, deps: Deps, raw: string, e: Event<Resolved>)
    requires Invariant(input, from, t, deps) && Mail(t).Some? && Rcpts(t) != []
    requires e == Handed(Mail(t).value, Rcpts(t), raw, DataCode(|Rcpts(t)|, |t|, deps))
    requires Sent(raw, input, deps.maxMessageSize) && SentCommand(input, DataFollows)
    ensures Invariant(input, from, t + [e], deps)
  {
    StateTracks(t);
    HandingIsJustified(t, Mail(t), Rcpts(t), raw, e.code);
    OneMore(t, e);
    DataGranted(|Rcpts(t)|, |t|, deps);
    assert Spells(DataFollows, e);
    GrantedKept(input, from, t, deps, e);
  }

  lemma {:induction false} DataGranted(n: nat, now: nat, deps: Deps)
    ensures RightCode(DataCode(n, now, deps), deps.verdict(now), Stored(n, now, deps))
  {
  }

  ghost function Invariants(input: string, from: nat, deps: Deps): History -> bool {
    t => Invariant(input, from, t, deps)
  }

  lemma {:induction false} ServerPreserves(isTls: bool, deps: Deps, input: string, from: nat)
    ensures Preserves(Serves(isTls, deps), Invariants(input, from, deps), input)
  {
    var inv := Invariants(input, from, deps);
    forall s, t | Suffix(s, input) && inv(t) ensures StepKeeps(Serves(isTls, deps), inv, s, t) {
      match LineAt(s, MAX_COMMAND_LINE)
      case Eof =>
      case TooLong => EventKeeps(input, from, t, deps, Other(500));
      case Line(text) =>
        assert ParseCommand(text).DataFollows? ==> DataAt(input, s, s[|text|..]);
        assert CommandAt(input, s, ParseCommand(text));
        ReplyKeeps(input, from, s[|text|..], ParseCommand(text), t, isTls, deps);
    }
  }

  lemma {:induction false} SessionKeepsInvariant(input: string, t: History, isTls: bool, deps: Deps)
    requires AllJustified(t) && |Rcpts(t)| <= MAX_RECIPIENTS && AllGranted(t, deps)
    ensures var t' := Session(Serves(isTls, deps), input, t).0; t <= t' && Invariant(input, |t|, t', deps)
  {
    var inv := Invariants(input, |t|, deps);
    ServerPreserves(isTls, deps, input, |t|);
    assert inv(t) && Suffix(input, input);
    SessionKeeps(Serves(isTls, deps), inv, input, input, t);
    assert inv(Session(Serves(isTls, deps), input, t).0);
  }

  /** In every connection, whatever the client sends: a message handed on belongs to the
      transaction in progress, goes to exactly the recipients accepted in it, in order,
      at most a hundred, and is what the client sent after DATA, in plaintext or over
      TLS. Every greeting, sender and recipient accepted was one the client asked for, and
      could be: a recipient's address is valid and resolved, when it was asked for, to
      the account it is delivered to. The final reply is what became of the message. */
  lemma {:induction false} ConnectionJustified(plain: string, pipelined: bool, handshakeOk: bool, tls: string, deps: Deps)
    ensures var t := Connection(plain, pipelined, handshakeOk, tls, deps);
      var before := Session(Serves(false, deps), plain, []).0;
      && AllJustified(t) && before <= t
      && AllSent(plain, 0, before, deps.maxMessageSize) && AllSent(tls, |before|, t, deps.maxMessageSize)
      && AllGranted(t, deps) && AllAsked(plain, 0, before) && AllAsked(tls, |before|, t)
  {
    var before := Session(Serves(false, deps), plain, []).0;
    SessionKeepsInvariant(plain, [], false, deps);
    SessionKeepsInvariant(tls, before, true, deps);
  }

  /** So each recipient a message goes to was asked for while the transaction was open,
      with a valid address that resolved to its account. */
  lemma {:induction false} HandedKnown(t: History, i: nat, k: nat, deps: Deps) returns (j: nat)
    requires AllJustified(t) && AllGranted(t, deps) && i < |t| && t[i].Handed? && k < |t[i].rcpts|
    ensures j < i && t[j] == RcptOk(t[i].rcpts[k]) && Input.ValidEmailAddress(t[i].rcpts[k].address)
    ensures deps.resolve(j, t[i].rcpts[k].address) == Some(t[i].rcpts[k].accountId)
  {
    assert Justified(t, i);
    var m: nat :| OpenedAt(t[..i], m) && t[m].sender == t[i].sender && t[i].rcpts == SmtpTrace.Accepted(t[m + 1..i]);
    j := AcceptedBetween(t, m + 1, i, k);
    assert Granted(t[..j], t[j], deps);
  }

  lemma {:induction false} AcceptedBetween(t: History, a: nat, b: nat, k: nat) returns (j: nat)
    requires a <= b <= |t| && k < |SmtpTrace.Accepted(t[a..b])|
    ensures a <= j < b && t[j] == RcptOk(SmtpTrace.Accepted(t[a..b])[k])
  {
    var where := AcceptedWhere(t[a..b], k);
    j := a + where;
  }

  // ------------------------------------------------------------------
  // What is refused, and how
  // ------------------------------------------------------------------

  /** A reply that leaves the transaction and the greeting as they were. */
  ghost predicate Refuses(serve: Server<Resolved>, line: string, t: History, code: nat) {
    && Gets(serve, line, t, Other(code))
    && Mail(t + [Other(code)]) == Mail(t) && Rcpts(t + [Other(code)]) == Rcpts(t) && Greeted(t + [Other(code)]) == Greeted(t)
  }

  lemma {:induction false} OtherRefuses(serve: Server<Resolved>, line: string, t: History, code: nat)
    requires Gets(serve, line, t, Other(code))
    ensures Refuses(serve, line, t, code)
  {
    OneMore(t, Other(code));
  }

  /** A RCPT line: 503 without a sender, 452 when the transaction is full, 501 if it has no
      address or not a valid one, 550 if nobody here has it; and nothing changes. */
  lemma {:induction false} RcptRefused(line: string, t: History, isTls: bool, deps: Deps)
    requires Readable(line) && ParseCommand(line).RcptTo?
    ensures var addr := ParseAddrParam(ParseCommand(line).arg, "TO:");
      && (Mail(t).None? ==> Refuses(Serves(isTls, deps), line, t, 503))
      && (Mail(t).Some? && |Rcpts(t)| >= 100 ==> Refuses(Serves(isTls, deps), line, t, 452))
      && (Mail(t).Some? && |Rcpts(t)| < 100 ==>
            && (addr.None? || !Input.ValidEmailAddress(addr.value) ==> Refuses(Serves(isTls, deps), line, t, 501))
            && (addr.Some? && Input.ValidEmailAddress(addr.value) && deps.resolve(|t|, addr.value).None? ==>
                  Refuses(Serves(isTls, deps), line, t, 550)))
  {
    var serve, addr := Serves(isTls, deps), ParseAddrParam(ParseCommand(line).arg, "TO:");
    if Mail(t).None? {
      OtherRefuses(serve, line, t, 503);
    } else if |Rcpts(t)| >= 100 {
      OtherRefuses(serve, line, t, 452);
    } else if addr.None? || !Input.ValidEmailAddress(addr.value) {
      OtherRefuses(serve, line, t, 501);
    } else if deps.resolve(|t|, addr.value).None? {
      OtherRefuses(serve, line, t, 550);
    }
  }

  /** MAIL: 503 before the greeting, 501 without an address. */
  lemma {:induction false} MailRefused(line: string, t: History, isTls: bool, deps: Deps)
    requires Readable(line) && ParseCommand(line).MailFrom?
    ensures (forall j: nat :: !GreetedAt(t, j)) ==> Refuses(Serves(isTls, deps), line, t, 503)
    ensures Greeted(t) && ParseAddrParam(ParseCommand(line).arg, "FROM:").None? ==> Refuses(Serves(isTls, deps), line, t, 501)
  {
    GreetedExactly(t);
    forall code | Gets(Serves(isTls, deps), line, t, Other(code)) ensures Refuses(Serves(isTls, deps), line, t, code) {
      OtherRefuses(Serves(isTls, deps), line, t, code);
    }
  }

  /** The other commands without a message: a bad domain is 501; RSET forgets the
      transaction and nothing else; NOOP is 250; STARTTLS is 503 over TLS, 502 when there
      is none and 501 with an argument; an unknown command is 502. */
  lemma {:induction false} OthersAnswered(line: string, t: History, isTls: bool, deps: Deps)
    requires Readable(line)
    ensures var c, serve := ParseCommand(line), Serves(isTls, deps);
      && (c.Helo? && !ValidHeloDomain(Trim(c.arg), deps) ==> Refuses(serve, line, t, 501))
      && (c.Rset? ==> Gets(serve, line, t, RsetOk) && Mail(t + [RsetOk]).None? && Rcpts(t + [RsetOk]) == []
                      && Greeted(t + [RsetOk]) == Greeted(t))
      && (c.Noop? ==> Refuses(serve, line, t, 250))
      && (c.Tls? && isTls ==> Refuses(serve, line, t, 503))
      && (c.Tls? && !isTls && !deps.tlsAvailable ==> Refuses(serve, line, t, 502))
      && (c.Tls? && !isTls && deps.tlsAvailable && c.arg != "" ==> Refuses(serve, line, t, 501))
      && (c.Unknown? || c.Auth? ==> Refuses(serve, line, t, 502))
  {
    OneMore(t, RsetOk);
    forall code | Gets(Serves(isTls, deps), line, t, Other(code)) ensures Refuses(Serves(isTls, deps), line, t, code) {
      OtherRefuses(Serves(isTls, deps), line, t, code);
    }
  }

  /** What ends a session: QUIT, an upgrade, and DATA with too much or too little after it.
      DATA without a sender or without recipients is 503. */
  lemma {:induction false} EndsAnswered(line: string, rest: string, t: History, isTls: bool, deps: Deps)
    requires Readable(line)
    ensures var c, session := ParseCommand(line), Session(Serves(isTls, deps), line + rest, t);
      && (c.Quit? ==> session == (t + [Other(221)], Closed))
      && (c == Tls("") && !isTls && deps.tlsAvailable ==> session == (t + [TlsOk], StartTls))
      && (c.DataFollows? && (Mail(t).None? || Rcpts(t) == []) ==> Refuses(Serves(isTls, deps), line, t, 503))
      && (c.DataFollows? && Mail(t).Some? && Rcpts(t) != [] ==>
            && (Decode(rest, [], deps.maxMessageSize).0.DataTooLarge? ==> session == (t + [Other(552)], Closed))
            && (Decode(rest, [], deps.maxMessageSize).0.DataIo? ==> session == (t, Closed)))
  {
    ReadsLine(line, rest);
    assert (line + rest)[|line|..] == rest && t + [] == t;
    OneMore(t, Other(503));
  }

  // ------------------------------------------------------------------
  // What is accepted
  // ------------------------------------------------------------------

  /** The line is a greeting, and this domain is accepted. */
  predicate Greets(line: string, domain: string, deps: Deps) {
    Readable(line) && ParseCommand(line).Helo? && domain == Trim(ParseCommand(line).arg) && ValidHeloDomain(domain, deps)
  }

  /** The line is a MAIL command with this sender. */
  predicate Opens(line: string, sender: string) {
    Readable(line) && ParseCommand(line).MailFrom? && ParseAddrParam(ParseCommand(line).arg, "FROM:") == Some(sender)
  }

  /** The line is a RCPT command for this mailbox, which is known at this point. */
  predicate Addresses(line: string, rcpt: Resolved, now: nat, deps: Deps) {
    && Readable(line) && ParseCommand(line).RcptTo? && ParseAddrParam(ParseCommand(line).arg, "TO:") == Some(rcpt.address)
    && Input.ValidEmailAddress(rcpt.address) && deps.resolve(now, rcpt.address) == Some(rcpt.accountId)
  }

  ghost function Addressees(deps: Deps): Addressing<Resolved> { (line, rcpt, n: nat) => Addresses(line, rcpt, n, deps) }

  lemma {:induction false} GreetingGets(line: string, domain: string, t: History, isTls: bool, deps: Deps)
    requires Greets(line, domain, deps)
    ensures Gets(Serves(isTls, deps), line, t, HeloOk(domain)) && Greeted(t + [HeloOk(domain)])
  {
    OneMore(t, HeloOk(domain));
  }

  lemma {:induction false} MailGets(line: string, sender: string, t: History, isTls: bool, deps: Deps)
    requires Opens(line, sender) && Greeted(t)
    ensures Gets(Serves(isTls, deps), line, t, MailOk(sender))
    ensures Mail(t + [MailOk(sender)]) == Some(sender) && Rcpts(t + [MailOk(sender)]) == []
  {
    OneMore(t, MailOk(sender));
  }

  lemma {:induction false} RcptGets(line: string, rcpt: Resolved, t: History, isTls: bool, deps: Deps)
    requires Addresses(line, rcpt, |t|, deps) && Mail(t).Some? && |Rcpts(t)| < MAX_RECIPIENTS
    ensures Gets(Serves(isTls, deps), line, t, RcptOk(rcpt))
    ensures Mail(t + [RcptOk(rcpt)]) == Mail(t) && Rcpts(t + [RcptOk(rcpt)]) == Rcpts(t) + [rcpt]
  {
    OneMore(t, RcptOk(rcpt));
  }

  lemma {:induction false} ServerTakes(isTls: bool, deps: Deps)
    ensures Takes(Serves(isTls, deps), Addressees(deps))
  {
    forall line, r, t | Addressees(deps)(line, r, |t|) && Mail(t).Some? && |Rcpts(t)| < MAX_RECIPIENTS
      ensures Gets(Serves(isTls, deps), line, t, RcptOk(r))
    {
      RcptGets(line, r, t, isTls, deps);
    }
  }

  lemma {:induction false} DataAnswer(wire: string, message: string, rest: string, t: History, isTls: bool, deps: Deps)
    requires Mail(t).Some? && Rcpts(t) != [] && Decode(wire, [], deps.maxMessageSize) == (Data(message), rest)
    ensures ReplyTo(wire, DataFollows, t, isTls, deps) ==
      Answer([Handed(Mail(t).value, Rcpts(t), message, DataCode(|Rcpts(t)|, |t|, deps))], None, rest)
  {
  }

  lemma {:induction false} DataAccepted(line: string, message: string, end: string, rest: string, t: History, isTls: bool, deps: Deps, handed: Event<Resolved>)
    requires Readable(line) && ParseCommand(line) == DataFollows
    requires Mail(t).Some? && Rcpts(t) != [] && Sendable(message, deps.maxMessageSize) && IsTerminator(end)
    requires handed == Handed(Mail(t).value, Rcpts(t), message, DataCode(|Rcpts(t)|, |t|, deps))
    ensures Leads(Serves(isTls, deps), line + Wire(Lines(message), end, rest), t, rest, t + [handed])
  {
    var wire := Wire(Lines(message), end, rest);
    DecodesSendable(message, end, rest, deps.maxMessageSize, wire);
    DataAnswer(wire, message, rest, t, isTls, deps);
    Answers(Serves(isTls, deps), line, wire, t, [handed], rest);
  }

  /** What the client is answered. */
  function Accepted(domain: string, sender: string, rcpts: seq<Resolved>): History {
    [HeloOk(domain)] + ([MailOk(sender)] + RcptOks(rcpts))
  }

  /** A greeting, a sender, up to a hundred known mailboxes and a message within the
      limits, dot-stuffed and terminated: at any point of any session each is accepted,
      the message is handed on byte for byte to exactly those mailboxes, and the session
      goes on with the input after it. */
  lemma {:induction false} MessageAccepted(hello: string, domain: string, mail: string, sender: string, rcptLines: seq<string>, rcpts: seq<Resolved>,
                                           message: string, end: string, rest: string, t: History, isTls: bool, deps: Deps)
    requires Greets(hello, domain, deps) && Opens(mail, sender)
    requires AllAddress(Addressees(deps), rcptLines, rcpts, |t| + 2) && 1 <= |rcpts| <= MAX_RECIPIENTS
    requires Sendable(message, deps.maxMessageSize) && IsTerminator(end)
    ensures var t' := t + Accepted(domain, sender, rcpts);
      Leads(Serves(isTls, deps), hello + (mail + (Flatten(rcptLines) + (DATA_LINE + Wire(Lines(message), end, rest)))), t,
            rest, t' + [Handed(sender, rcpts, message, DataCode(|rcpts|, |t'|, deps))])
  {
    var data := DATA_LINE + Wire(Lines(message), end, rest);
    GreetingGets(hello, domain, t, isTls, deps);
    MailGets(mail, sender, t + [HeloOk(domain)], isTls, deps);
    ServerTakes(isTls, deps);
    EnvelopeLeads(Serves(isTls, deps), Addressees(deps), hello, domain, mail, sender, rcptLines, rcpts, data, t);
    var t' := t + Accepted(domain, sender, rcpts);
    var handed := Handed(sender, rcpts, message, DataCode(|rcpts|, |t'|, deps));
    DataLineParses();
    DataAccepted(DATA_LINE, message, end, rest, t', isTls, deps, handed);
    LeadsOn(Serves(isTls, deps), hello + (mail + (Flatten(rcptLines) + data)), t, data, t', rest, t' + [handed]);
  }

  lemma {:induction false} EnvelopeLeads(serve: Server<Resolved>, addresses: Addressing<Resolved>, hello: string, domain: string,
                                         mail: string, sender: string, rcptLines: seq<string>, rcpts: seq<Resolved>, rest: string, t: History)
    requires Gets(serve, hello, t, HeloOk(domain)) && Gets(serve, mail, t + [HeloOk(domain)], MailOk(sender)) && Takes(serve, addresses)
    requires AllAddress(addresses, rcptLines, rcpts, |t| + 2) && |rcpts| <= MAX_RECIPIENTS
    ensures Leads(serve, hello + (mail + (Flatten(rcptLines) + rest)), t, rest, t + Accepted(domain, sender, rcpts))
    ensures Addressed(t + Accepted(domain, sender, rcpts), sender, rcpts)
  {
    var t1, t', more := t + [HeloOk(domain)], t + Accepted(domain, sender, rcpts), mail + (Flatten(rcptLines) + rest);
    assert t' == t1 + ([MailOk(sender)] + RcptOks(rcpts));
    TransactionLeads(serve, addresses, mail, sender, rcptLines, rcpts, rest, t1, t');
    OneMoreLeads(serve, hello, HeloOk(domain), more, t, rest, [MailOk(sender)] + RcptOks(rcpts));
  }

  // ---- in the usual spelling ----

  lemma {:induction false} HeloSpelled(domain: string, deps: Deps)
    requires ValidHeloDomain(domain, deps) && Tight(domain) && |domain| <= 4000
    ensures Greets(HeloLine(domain), domain, deps)
  {
    HeloLineParses(domain);
  }

  lemma {:induction false} MailSpelled(sender: string)
    requires '\n' !in sender && '>' !in sender && |sender| <= 4000
    ensures Opens(MailLine(sender), sender)
  {
    MailLineParses(sender);
  }

  lemma {:induction false} RcptSpelled(rcpt: Resolved, now: nat, deps: Deps)
    requires Input.ValidEmailAddress(rcpt.address) && deps.resolve(now, rcpt.address) == Some(rcpt.accountId)
    ensures Addresses(RcptLine(rcpt.address), rcpt, now, deps)
  {
    Input.AddressIsShort(rcpt.address);
    RcptLineParses(rcpt.address);
  }

  function RcptLines(rcpts: seq<Resolved>): seq<string> {
    if rcpts == [] then [] else [RcptLine(rcpts[0].address)] + RcptLines(rcpts[1..])
  }

  /** Valid addresses of mailboxes that are known when they are asked for. */
  ghost predicate AllKnown(rcpts: seq<Resolved>, n: nat, deps: Deps) {
    rcpts == [] ||
    (Input.ValidEmailAddress(rcpts[0].address) && deps.resolve(n, rcpts[0].address) == Some(rcpts[0].accountId)
     && AllKnown(rcpts[1..], n + 1, deps))
  }

  lemma {:induction false} RcptsSpelled(rcpts: seq<Resolved>, n: nat, deps: Deps)
    requires AllKnown(rcpts, n, deps)
    ensures AllAddress(Addressees(deps), RcptLines(rcpts), rcpts, n)
  {
    if rcpts == [] {
    } else {
      RcptSpelled(rcpts[0], n, deps);
      RcptsSpelled(rcpts[1..], n + 1, deps);
      assert RcptLines(rcpts)[1..] == RcptLines(rcpts[1..]);
    }
  }

  /** What the client says up to DATA, in the usual spelling. */
  function Dialogue(domain: string, sender: string, rcpts: seq<Resolved>): string {
    HeloLine(domain) + (MailLine(sender) + Flatten(RcptLines(rcpts)))
  }

  /** The same with EHLO, `MAIL FROM:<..>` and `RCPT TO:<..>` lines. */
  lemma {:induction false} SpelledMessageAccepted(domain: string, sender: string, rcpts: seq<Resolved>, message: string, end: string, rest: string,
                                                  t: History, isTls: bool, deps: Deps)
    requires ValidHeloDomain(domain, deps) && Tight(domain) && |domain| <= 4000
    requires '\n' !in sender && '>' !in sender && |sender| <= 4000
    requires AllKnown(rcpts, |t| + 2, deps) && 1 <= |rcpts| <= MAX_RECIPIENTS
    requires Sendable(message, deps.maxMessageSize) && IsTerminator(end)
    ensures var t' := t + Accepted(domain, sender, rcpts);
      Leads(Serves(isTls, deps), Dialogue(domain, sender, rcpts) + (DATA_LINE + Wire(Lines(message), end, rest)), t,
            rest, t' + [Handed(sender, rcpts, message, DataCode(|rcpts|, |t'|, deps))])
  {
    HeloSpelled(domain, deps);
    MailSpelled(sender);
    RcptsSpelled(rcpts, |t| + 2, deps);
    var data := DATA_LINE + Wire(Lines(message), end, rest);
    MessageAccepted(HeloLine(domain), domain, MailLine(sender), sender, RcptLines(rcpts), rcpts, message, end, rest, t, isTls, deps);
    Reassociate(HeloLine(domain), MailLine(sender), Flatten(RcptLines(rcpts)), data);
  }

  lemma {:induction false} Reassociate(a: string, b: string, c: string, d: string)
    ensures a + (b + (c + d)) == a + (b + c) + d
  {
  }
}
