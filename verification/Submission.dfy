/** The authenticated submission session (crates/submission/src/session.rs). */
module Submission {
  import opened Text
  import opened SmtpWire
  import opened SmtpTrace
  import opened SmtpSession
  import opened QueueTypes
  import Input

  datatype Account = Account(id: int, localPart: string, domain: string)
  {
    function Address(): string { localPart + ['@'] + domain }
  }

  /** What checking credentials comes to; `AuthBroken` ends the connection. */
  datatype AuthResult = Granted(account: Account) | Denied | AuthBroken

  datatype QueueReply = Queued | Limited | Refused

  /** Answers from outside, indexed by the length of the history. */
  datatype Deps = Deps(
    maxMessageSize: nat,
    authenticate: (nat, string) -> AuthResult,     // decodes and checks a PLAIN response
    enqueue: (nat, NewOutbound) -> QueueReply,
    validHelo: string -> bool)

  type History = seq<Event<string>>

  // ------------------------------------------------------------------
  // What each command is answered
  // ------------------------------------------------------------------

  function HeloAnswer(arg: string, deps: Deps): Event<string> {
    if deps.validHelo(Trim(arg)) then HeloOk(Trim(arg)) else Other(501)
  }

  function StartTlsAnswer(isTls: bool, arg: string): Event<string> {
    if isTls then Other(503) else if arg != "" then Other(501) else TlsOk
  }

  function MailAnswer(auth: Option<(int, string)>, arg: string): Event<string> {
    if auth.None? then Other(530)
    else match ParseAddrParam(arg, "FROM:")
      case None => Other(501)
      case Some(addr) => if EqIgnoreCase(addr, auth.value.1) then MailOk(addr) else Other(553)
  }

  function RcptAnswer(inMail: bool, count: nat, arg: string): Event<string> {
    if !inMail then Other(503)
    else match ParseAddrParam(arg, "TO:")
      case None => Other(501)
      case Some(addr) =>
        if count >= MAX_RECIPIENTS then Other(452)
        else if Input.ValidEmailAddress(addr) then RcptOk(addr)
        else Other(501)
  }

  /** What is passed to `enqueue`. */
  function Submitted(account: int, sender: string, rcpts: seq<string>): NewOutbound {
    NewOutbound(account, sender, rcpts, false)
  }

  function QueueCode(reply: QueueReply): nat {
    match reply case Queued => 250 case Limited => 450 case Refused => 451
  }

  /** The answer when the credentials, received after n replies, are checked. */
  function Checked(n: nat, payload: string, rest: string, deps: Deps): Answer<string> {
    match deps.authenticate(n, payload)
    case Granted(account) => Answer([AuthOk(account.id, account.Address())], None, rest)
    case Denied => Answer([Other(535)], None, rest)
    case AuthBroken => Answer([], Some(Closed), rest)
  }

  /** The same after a reply that asked for them. */
  function AfterPrompt(answer: Answer<string>): Answer<string> {
    answer.(replies := [Other(334)] + answer.replies)
  }

  /** The credentials are asked for and come on the next line. */
  function Prompted(rest: string, n: nat, deps: Deps): Answer<string> {
    match LineAt(rest, MAX_COMMAND_LINE)
    case Line(text) => AfterPrompt(Checked(n + 1, TrimLineEnd(text), rest[|text|..], deps))
    case _ => Answer([Other(334)], Some(Closed), rest)
  }

  predicate WantsPlain(arg: string) { EqIgnoreCase(SplitCommand(arg).0, "PLAIN") }

  /** AUTH: refused before TLS and after success; otherwise one attempt, with the
      credentials on the same line or on the next. With a mechanism other than PLAIN
      the client gets two replies, 504 and then 535. */
  function AuthReply(rest: string, arg: string, t: History, isTls: bool, deps: Deps): Answer<string> {
    if !isTls then Answer([Other(530)], None, rest)
    else if Authenticated(t).Some? then Answer([Other(503)], None, rest)
    else if !WantsPlain(arg) then Answer([Other(504), Other(535)], None, rest)
    else if SplitCommand(arg).1 != "" then Checked(|t|, SplitCommand(arg).1, rest, deps)
    else Prompted(rest, |t|, deps)
  }

  /** DATA: without an account the `expect` would panic and the connection end. */
  function DataReply(rest: string, t: History, deps: Deps): Answer<string> {
    if Mail(t).None? || Rcpts(t) == [] then Answer([Other(503)], None, rest)
    else
      var (result, left) := Decode(rest, [], deps.maxMessageSize);
      match result
      case Data(raw) =>
        if HasAccount(t) then Answer([QueueReplies(t, raw, deps)], None, left) else Answer([], Some(Closed), left)
      case DataTooLarge => Answer([Other(552)], Some(Closed), rest)
      case DataIo => Answer([], Some(Closed), rest)
  }

  /** The message goes to the queue in the name of the account. */
  function QueueReplies(t: History, raw: string, deps: Deps): Event<string>
    requires Mail(t).Some? && HasAccount(t)
  {
    var msg := Submitted(Authenticated(t).value.0, Mail(t).value, Rcpts(t));
    Handed(msg.envelopeFrom, msg.recipients, raw, QueueCode(deps.enqueue(|t|, msg)))
  }

  /** A sender implies an account. */
  predicate HasAccount(t: History) { Mail(t).Some? ==> Authenticated(t).Some? }

  /** The commands that are answered with one reply, and read nothing else. */
  function SimpleReply(c: Command, t: History, isTls: bool, deps: Deps): Event<string> {
    match c
    case Helo(arg) => HeloAnswer(arg, deps)
    case Tls(arg) => StartTlsAnswer(isTls, arg)
    case MailFrom(arg) => MailAnswer(Authenticated(t), arg)
    case RcptTo(arg) => RcptAnswer(Mail(t).Some?, |Rcpts(t)|, arg)
    case Rset => RsetOk
    case Noop => Other(250)
    case _ => Other(502)
  }

  /** What the history so far and the input after the line call for. */
  function ReplyTo(rest: string, c: Command, t: History, isTls: bool, deps: Deps): Answer<string> {
    match c
    case Auth(arg) => AuthReply(rest, arg, t, isTls, deps)
    case DataFollows => DataReply(rest, t, deps)
    case Quit => Answer([Other(221)], Some(Closed), rest)
    case _ =>
      var e := SimpleReply(c, t, isTls, deps);
      Answer([e], if e.TlsOk? then Some(StartTls) else None, rest)
  }

  ghost function Serves(isTls: bool, deps: Deps): Server<string> {
    (rest, text, t) => ReplyTo(rest, ParseCommand(text), t, isTls, deps)
  }

  // ------------------------------------------------------------------
  // The server
  // ------------------------------------------------------------------

  class Envelope {
    var heloDomain: Option<string>
    var authenticated: Option<Account>
    var mailFrom: Option<string>
    var rcptTo: seq<string>

    constructor ()
      ensures heloDomain.None? && authenticated.None? && mailFrom.None? && rcptTo == []
    {
      heloDomain, authenticated, mailFrom, rcptTo := None, None, None, [];
    }

    method Reset()
      modifies this`mailFrom, this`rcptTo
      ensures mailFrom.None? && rcptTo == []
    {
      mailFrom, rcptTo := None, [];
    }

    /** The envelope is what the history says. */
    ghost predicate Faithful(t: History)
      reads this
    {
      && mailFrom == Mail(t) && rcptTo == Rcpts(t) && heloDomain.Some? == Greeted(t)
      && Authenticated(t) == Identity(authenticated) && HasAccount(t)
    }
  }

  function Identity(account: Option<Account>): Option<(int, string)> {
    match account
    case None => None
    case Some(a) => Some((a.id, a.Address()))
  }

  method OnHelo(env: Envelope, arg: string, deps: Deps, t: History) returns (t': History)
    requires env.Faithful(t)
    modifies env`heloDomain, env`mailFrom, env`rcptTo
    ensures env.Faithful(t') && t' == t + [HeloAnswer(arg, deps)]
  {
    var domain := Trim(arg);
    if !deps.validHelo(domain) {
      t' := Say(t, 501);
      return;
    }
    env.heloDomain := Some(domain);
    env.Reset();
    OneMore(t, HeloOk(domain));
    t' := t + [HeloOk(domain)];
  }

  method OnCredentials(env: Envelope, payload: string, deps: Deps, t: History, ghost rest: string)
    returns (next: Option<LoopOutcome>, t': History)
    requires env.Faithful(t)
    modifies env`authenticated
    ensures env.Faithful(t') && Did(Checked(|t|, payload, rest, deps), t, next, t', rest)
  {
    next := None;
    match deps.authenticate(|t|, payload)
    case Granted(account) =>
      env.authenticated := Some(account);
      OneMore(t, AuthOk(account.id, account.Address()));
      t' := t + [AuthOk(account.id, account.Address())];
    case Denied => t' := Say(t, 535);
    case AuthBroken =>
      next, t' := Some(Closed), t;
      assert t + [] == t;
  }

  method OnPrompt(reader: Reader, env: Envelope, deps: Deps, t: History) returns (next: Option<LoopOutcome>, t': History)
    requires reader.Valid() && env.Faithful(t)
    modifies reader`pos, env`authenticated
    ensures reader.Valid() && old(reader.pos) <= reader.pos && env.Faithful(t')
    ensures Did(Prompted(old(reader.Rest()), |t|, deps), t, next, t', reader.Rest())
  {
    var prompted := Say(t, 334);
    var line := reader.ReadLineBounded(MAX_COMMAND_LINE);
    if !line.Line? {
      return Some(Closed), prompted;
    }
    var payload := TrimLineEnd(line.text);
    ghost var answer := Checked(|t| + 1, payload, reader.Rest(), deps);
    assert Prompted(old(reader.Rest()), |t|, deps) == AfterPrompt(answer);
    next, t' := OnCredentials(env, payload, deps, prompted, reader.Rest());
    PromptedDid(answer, t, next, t', reader.Rest());
  }

  lemma {:induction false} PromptedDid(answer: Answer<string>, t: History, next: Option<LoopOutcome>, t': History, left: string)
    requires Did(answer, t + [Other(334)], next, t', left)
    ensures Did(AfterPrompt(answer), t, next, t', left)
  {
    assert t + [Other(334)] + answer.replies == t + ([Other(334)] + answer.replies);
  }

  /** AUTH: an account is accepted exactly if the credentials are granted, and it is
      the account they were granted for. */
  method OnAuth(reader: Reader, env: Envelope, isTls: bool, arg: string, deps: Deps, t: History)
    returns (next: Option<LoopOutcome>, t': History)
    requires reader.Valid() && env.Faithful(t)
    modifies reader`pos, env`authenticated
    ensures reader.Valid() && old(reader.pos) <= reader.pos && env.Faithful(t')
    ensures Did(AuthReply(old(reader.Rest()), arg, t, isTls, deps), t, next, t', reader.Rest())
  {
    next := None;
    if !isTls {
      t' := Say(t, 530);
      return;
    }
    if env.authenticated.Some? {
      t' := Say(t, 503);
      return;
    }
    var (mechanism, initial) := SplitCommand(arg);
    if !EqIgnoreCase(mechanism, "PLAIN") {
      t' := Say(t, 504);
      t' := Say(t', 535);
    } else if initial != "" {
      next, t' := OnCredentials(env, initial, deps, t, reader.Rest());
    } else {
      next, t' := OnPrompt(reader, env, deps, t);
    }
  }

  method OnMail(env: Envelope, arg: string, t: History) returns (t': History)
    requires env.Faithful(t)
    modifies env`mailFrom, env`rcptTo
    ensures env.Faithful(t') && t' == t + [MailAnswer(Authenticated(t), arg)]
  {
    if env.authenticated.None? {
      t' := Say(t, 530);
      return;
    }
    match ParseAddrParam(arg, "FROM:")
    case None => t' := Say(t, 501);
    case Some(addr) =>
      if EqIgnoreCase(addr, env.authenticated.value.Address()) {
        env.mailFrom, env.rcptTo := Some(addr), [];
        OneMore(t, MailOk(addr));
        t' := t + [MailOk(addr)];
      } else {
        t' := Say(t, 553);
      }
  }

  method OnRcpt(env: Envelope, arg: string, t: History) returns (t': History)
    requires env.Faithful(t)
    modifies env`rcptTo
    ensures env.Faithful(t') && t' == t + [RcptAnswer(Mail(t).Some?, |Rcpts(t)|, arg)]
  {
    var answer := RcptAnswer(env.mailFrom.Some?, |env.rcptTo|, arg);
    OneMore(t, answer);
    if answer.RcptOk? {
      env.rcptTo := env.rcptTo + [answer.rcpt];
    }
    t' := t + [answer];
  }

  /** DATA: the decoded message goes to the queue under the session's account, which
      there always is. */
  method OnData(reader: Reader, env: Envelope, deps: Deps, t: History) returns (next: Option<LoopOutcome>, t': History)
    requires reader.Valid() && env.Faithful(t)
    modifies reader`pos, env`mailFrom, env`rcptTo
    ensures reader.Valid() && old(reader.pos) <= reader.pos && env.Faithful(t')
    ensures Did(DataReply(old(reader.Rest()), t, deps), t, next, t', reader.Rest())
  {
    next := None;
    if env.mailFrom.None? || env.rcptTo == [] {
      t' := Say(t, 503);
      return;
    }
    var read := reader.ReadData(deps.maxMessageSize);
    match read
    case Data(raw) =>
      var msg := Submitted(env.authenticated.value.id, env.mailFrom.value, env.rcptTo);
      var handed := Handed(msg.envelopeFrom, msg.recipients, raw, QueueCode(deps.enqueue(|t|, msg)));
      env.Reset();
      OneMore(t, handed);
      t' := t + [handed];
    case DataTooLarge =>
      t' := Say(t, 552);
      next := Some(Closed);
    case DataIo =>
      t', next := t, Some(Closed);
      assert t + [] == t;
  }

  /** The commands that read nothing more. */
  method OnSimple(env: Envelope, deps: Deps, isTls: bool, c: Command, t: History) returns (t': History)
    requires env.Faithful(t)
    modifies env
    ensures t' == t + [SimpleReply(c, t, isTls, deps)] && (t' != t + [TlsOk] ==> env.Faithful(t'))
  {
    match c
    case Helo(arg) => t' := OnHelo(env, arg, deps, t);
    case Tls(arg) =>
      if isTls {
        t' := Say(t, 503);
      } else if arg != "" {
        t' := Say(t, 501);
      } else {
        t' := t + [TlsOk];
      }
    case MailFrom(arg) => t' := OnMail(env, arg, t);
    case RcptTo(arg) => t' := OnRcpt(env, arg, t);
    case Rset =>
      env.Reset();
      OneMore(t, RsetOk);
      t' := t + [RsetOk];
    case Noop => t' := Say(t, 250);
    case _ => t' := Say(t, 502);
  }

  /** The commands that need no more than their line. */
  method OnLine(env: Envelope, deps: Deps, isTls: bool, c: Command, t: History, ghost rest: string)
    returns (next: Option<LoopOutcome>, t': History)
    requires env.Faithful(t) && !c.DataFollows? && !c.Auth?
    modifies env
    ensures next != Some(StartTls) ==> env.Faithful(t')
    ensures Did(ReplyTo(rest, c, t, isTls, deps), t, next, t', rest)
  {
    next := None;
    if c.Quit? {
      t' := Say(t, 221);
      next := Some(Closed);
    } else {
      t' := OnSimple(env, deps, isTls, c, t);
      if t'[|t|].TlsOk? {
        next := Some(StartTls);
      }
    }
  }

  /** One command: exactly the reply that the history and the input call for. */
  method OnCommand(reader: Reader, env: Envelope, isTls: bool, deps: Deps, c: Command, t: History)
    returns (next: Option<LoopOutcome>, t': History)
    requires reader.Valid() && env.Faithful(t)
    modifies reader`pos, env
    ensures reader.Valid() && old(reader.pos) <= reader.pos
    ensures next != Some(StartTls) ==> env.Faithful(t')
    ensures Did(ReplyTo(old(reader.Rest()), c, t, isTls, deps), t, next, t', reader.Rest())
  {
    if c.Auth? {
      next, t' := OnAuth(reader, env, isTls, c.arg, deps, t);
    } else if c.DataFollows? {
      next, t' := OnData(reader, env, deps, t);
    } else {
      next, t' := OnLine(env, deps, isTls, c, t, reader.Rest());
    }
  }

  /** A line read and answered: what is left of the session is the session from there. */
  method TakeLine(reader: Reader, env: Envelope, isTls: bool, deps: Deps, t: History)
    returns (next: Option<LoopOutcome>, t': History)
    requires reader.Valid() && env.Faithful(t)
    modifies reader`pos, env
    ensures reader.Valid() && (next.None? ==> old(reader.pos) < reader.pos && env.Faithful(t'))
    ensures Continues(Session(Serves(isTls, deps), old(reader.Rest()), t), Serves(isTls, deps), next, t', reader.Rest())
  {
    var line := reader.ReadLineBounded(MAX_COMMAND_LINE);
    match line
    case Eof => next, t' := Some(Closed), t;
    case TooLong =>
      t' := Say(t, 500);
      next := Some(Closed);
    case Line(text) =>
      next, t' := OnCommand(reader, env, isTls, deps, ParseCommand(text), t);
      LineContinues(Serves(isTls, deps), old(reader.Rest()), text, t, next, t', reader.Rest());
  }

  /** The command loop: for every byte sequence the client sends, exactly the session
      that the lines of the input call for. */
  method CommandLoop(reader: Reader, env: Envelope, isTls: bool, deps: Deps, start: History)
    returns (outcome: LoopOutcome, t: History)
    requires reader.Valid() && env.Faithful(start)
    modifies reader`pos, env
    ensures reader.Valid() && (t, outcome) == Session(Serves(isTls, deps), old(reader.Rest()), start)
  {
    t := start;
    while true
      invariant reader.Valid() && env.Faithful(t)
      invariant Session(Serves(isTls, deps), reader.Rest(), t) == Session(Serves(isTls, deps), old(reader.Rest()), start)
      decreases |reader.input| - reader.pos
    {
      var next;
      next, t := TakeLine(reader, env, isTls, deps, t);
      if next.Some? {
        return next.value, t;
      }
    }
  }

  // ------------------------------------------------------------------
  // What every session keeps
  // ------------------------------------------------------------------

  /** These credentials were granted, for the account that was accepted. */
  predicate Grants(deps: Deps, n: nat, payload: string, e: Event<string>) {
    && deps.authenticate(n, payload).Granted?
    && e == AuthOk(deps.authenticate(n, payload).account.id, deps.authenticate(n, payload).account.Address())
  }

  ghost predicate Within(x: string, s: string) { exists i: nat :: At(x, s, i) }

  predicate At(x: string, s: string, i: nat) { i + |x| <= |s| && s[i..i + |x|] == x }

  /** The command asks for the sender or the recipient that the event grants. */
  predicate Spells(c: Command, e: Event<string>) {
    match e
    case MailOk(sender) => c.MailFrom? && ParseAddrParam(c.arg, "FROM:") == Some(sender)
    case RcptOk(rcpt) => c.RcptTo? && ParseAddrParam(c.arg, "TO:") == Some(rcpt)
    case _ => true
  }

  ghost predicate Asked(input: string, e: Event<string>) { exists c :: SentCommand(input, c) && Spells(c, e) }

  /** The client sent the credentials, the senders and recipients, and the messages. */
  ghost predicate FromInput(input: string, t: History, i: nat, deps: Deps)
    requires i < |t|
  {
    && (t[i].MailOk? || t[i].RcptOk? ==> Asked(input, t[i]))
    && (t[i].AuthOk? ==> exists payload :: Within(payload, input) && Grants(deps, i, payload, t[i]))
    && (t[i].Handed? ==> Sent(t[i].bytes, input, deps.maxMessageSize))
  }

  /** 250 exactly if the queue took the message, 450 exactly if the account is over its
      limits, and otherwise 451. */
  predicate RightCode(code: nat, reply: QueueReply) {
    (code == 250 <==> reply.Queued?) && (code == 450 <==> reply.Limited?) && (code == 451 <==> reply.Refused?)
  }

  /** Every accepted sender is the authenticated address up to case; every recipient has a
      valid address and there is room for it; every message is handed to the queue under
      the authenticated account, and the client learns what became of it. */
  ghost predicate Owned(t: History, i: nat, deps: Deps)
    requires i < |t|
  {
    var auth := Authenticated(t[..i]);
    && (t[i].MailOk? ==> auth.Some? && EqIgnoreCase(t[i].sender, auth.value.1))
    && (t[i].Handed? ==>
          && auth.Some? && EqIgnoreCase(t[i].sender, auth.value.1) && ValidRecipients(t[i].rcpts)
          && RightCode(t[i].code, deps.enqueue(i, NewOutbound(auth.value.0, t[i].sender, t[i].rcpts, false))))
    && (t[i].RcptOk? ==> Mail(t[..i]).Some? && |Rcpts(t[..i])| < 100 && Input.ValidEmailAddress(t[i].rcpt))
    && (t[i].HeloOk? ==> deps.validHelo(t[i].domain))
  }

  ghost predicate NoAuth(t: History) { forall k :: 0 <= k < |t| ==> !t[k].AuthOk? }

  ghost predicate AuthOnce(t: History) { forall j, k :: 0 <= j < k < |t| ==> !(t[j].AuthOk? && t[k].AuthOk?) }

  /** What every history satisfies; `input` is what the client sent over TLS. */
  ghost predicate Sound(input: string, t: History, deps: Deps) {
    && AllJustified(t) && AuthOnce(t)
    && forall i: nat :: i < |t| ==> Owned(t, i, deps) && FromInput(input, t, i, deps)
  }

  /** The run invariant: a sender implies an account, an account implies TLS, and the
      sender is that account's address up to ASCII case. */
  ghost predicate Invariant(input: string, t: History, isTls: bool, deps: Deps) {
    && Sound(input, t, deps) && HasAccount(t)
    && |Rcpts(t)| <= MAX_RECIPIENTS && (forall i :: 0 <= i < |Rcpts(t)| ==> Input.ValidEmailAddress(Rcpts(t)[i]))
    && (Authenticated(t).None? ==> NoAuth(t)) && (!isTls ==> NoAuth(t))
    && (Mail(t).Some? ==> EqIgnoreCase(Mail(t).value, Authenticated(t).value.1))
  }

  /** What may come next. */
  ghost predicate Fits(input: string, t: History, e: Event<string>, isTls: bool, deps: Deps) {
    match e
    case HeloOk(domain) => deps.validHelo(domain)
    case MailOk(sender) => Authenticated(t).Some? && EqIgnoreCase(sender, Authenticated(t).value.1) && Asked(input, e)
    case RcptOk(rcpt) => Mail(t).Some? && |Rcpts(t)| < MAX_RECIPIENTS && Input.ValidEmailAddress(rcpt) && Asked(input, e)
    case TlsOk => !isTls
    case AuthOk(_, _) =>
      isTls && Authenticated(t).None? && exists payload :: Within(payload, input) && Grants(deps, |t|, payload, e)
    case Handed(sender, rcpts, bytes, code) =>
      && Mail(t).Some? && Rcpts(t) != [] && Authenticated(t).Some? && e == QueueReplies(t, bytes, deps)
      && Sent(bytes, input, deps.maxMessageSize)
    case _ => true
  }

  lemma {:induction false} SoundGrows(input: string, t: History, e: Event<string>, deps: Deps)
    requires Sound(input, t, deps) && AllJustified(t + [e]) && AuthOnce(t + [e])
    requires Owned(t + [e], |t|, deps) && FromInput(input, t + [e], |t|, deps)
    ensures Sound(input, t + [e], deps)
  {
    var t' := t + [e];
    forall i: nat | i < |t'| ensures Owned(t', i, deps) && FromInput(input, t', i, deps) {
      if i < |t| {
        assert t'[..i] == t[..i] && t'[i] == t[i];
        assert Owned(t, i, deps) && FromInput(input, t, i, deps);
      }
    }
  }

  lemma {:induction false} OwnedNext(input: string, t: History, e: Event<string>, isTls: bool, deps: Deps)
    requires Invariant(input, t, isTls, deps) && Fits(input, t, e, isTls, deps)
    ensures Owned(t + [e], |t|, deps) && FromInput(input, t + [e], |t|, deps) && AuthOnce(t + [e])
  {
    assert (t + [e])[..|t|] == t && (t + [e])[|t|] == e;
  }

  lemma {:induction false} JustifiedNext(input: string, t: History, e: Event<string>, isTls: bool, deps: Deps)
    requires Invariant(input, t, isTls, deps) && Fits(input, t, e, isTls, deps)
    ensures AllJustified(t + [e])
  {
    if e.Handed? {
      StateTracks(t);
      HandingIsJustified(t, Mail(t), Rcpts(t), e.bytes, e.code);
    } else {
      StaysJustified(t, e);
    }
  }

  lemma {:induction false} FitKeeps(input: string, t: History, e: Event<string>, isTls: bool, deps: Deps)
    requires Invariant(input, t, isTls, deps) && Fits(input, t, e, isTls, deps)
    ensures Invariant(input, t + [e], isTls, deps)
  {
    JustifiedNext(input, t, e, isTls, deps);
    OwnedNext(input, t, e, isTls, deps);
    SoundGrows(input, t, e, deps);
    OneMore(t, e);
  }

  lemma {:induction false} OtherKept(input: string, t: History, code: nat, isTls: bool, deps: Deps)
    requires Invariant(input, t, isTls, deps)
    ensures Invariant(input, t + [Other(code)], isTls, deps)
  {
    FitKeeps(input, t, Other(code), isTls, deps);
  }

  // ---- credentials come from the input ----

  lemma {:induction false} WithinTrans(x: string, y: string, z: string)
    requires Within(x, y) && Within(y, z)
    ensures Within(x, z)
  {
    var i: nat :| At(x, y, i);
    var j: nat :| At(y, z, j);
    SliceOfSlice(z, j, j + |y|, i, i + |x|);
    assert At(x, z, j + i);
  }

  lemma {:induction false} SliceOfSlice(s: string, a: nat, b: nat, c: nat, d: nat)
    requires a <= b <= |s| && c <= d <= b - a
    ensures s[a..b][c..d] == s[a + c..a + d]
  {
    var x, y := s[a..b][c..d], s[a + c..a + d];
    assert |x| == |y| && forall k :: 0 <= k < |x| ==> x[k] == y[k];
  }

  lemma {:induction false} SliceWithin(s: string, a: nat, b: nat)
    requires a <= b <= |s|
    ensures Within(s[a..b], s)
  {
    assert At(s[a..b], s, a);
  }

  lemma {:induction false} TrimLineEndWithin(s: string)
    ensures Within(TrimLineEnd(s), s)
  {
    if s != [] && (s[|s| - 1] == '\r' || s[|s| - 1] == '\n') {
      TrimLineEndWithin(s[..|s| - 1]);
      SliceWithin(s, 0, |s| - 1);
      WithinTrans(TrimLineEnd(s), s[..|s| - 1], s);
    } else {
      assert s[0..|s|] == s;
      SliceWithin(s, 0, |s|);
    }
  }

  lemma {:induction false} ArgumentWithin(line: string)
    requires SplitCommand(line).1 != ""
    ensures Within(SplitCommand(line).1, line)
  {
    var k := IndexOf(line, ' ');
    TrimWithin(line[k + 1..]);
    SliceWithin(line, k + 1, |line|);
    assert line[k + 1..|line|] == line[k + 1..];
    WithinTrans(Trim(line[k + 1..]), line[k + 1..], line);
  }

  lemma {:induction false} TrimWithin(s: string)
    ensures Within(Trim(s), s)
  {
    TrimEndWithin(s);
    TrimStartWithin(TrimEnd(s));
    WithinTrans(Trim(s), TrimEnd(s), s);
  }

  lemma {:induction false} TrimStartWithin(s: string)
    ensures Within(TrimStart(s), s)
  {
    if TrimStart(s) == s {
      assert At(s, s, 0);
    } else {
      TrimStartWithin(s[1..]);
      SliceWithin(s, 1, |s|);
      assert s[1..|s|] == s[1..];
      WithinTrans(TrimStart(s), s[1..], s);
    }
  }

  lemma {:induction false} TrimEndWithin(s: string)
    ensures Within(TrimEnd(s), s)
  {
    if TrimEnd(s) == s {
      assert At(s, s, 0);
    } else {
      TrimEndWithin(s[..|s| - 1]);
      SliceWithin(s, 0, |s| - 1);
      WithinTrans(TrimEnd(s), s[..|s| - 1], s);
    }
  }

  lemma {:induction false} LineWithin(s: string, input: string)
    requires Suffix(s, input) && LineAt(s, MAX_COMMAND_LINE).Line?
    ensures Within(LineAt(s, MAX_COMMAND_LINE).text, input)
  {
    var text := LineAt(s, MAX_COMMAND_LINE).text;
    assert text == s[0..|text|];
    SliceWithin(s, 0, |text|);
    assert input[|input| - |s|..|input|] == s;
    SliceWithin(input, |input| - |s|, |input|);
    WithinTrans(text, s, input);
  }

  /** What AUTH was given is part of the input. */
  ghost predicate ArgFrom(input: string, c: Command) { c.Auth? && c.arg != "" ==> Within(c.arg, input) }

  lemma {:induction false} ArgWithin(input: string, text: string)
    requires Within(text, input)
    ensures ArgFrom(input, ParseCommand(text))
  {
    var line := TrimLineEnd(text);
    var arg := SplitCommand(line).1;
    assert ParseCommand(text).Auth? ==> ParseCommand(text) == Auth(arg);
    if arg != "" {
      TrimLineEndWithin(text);
      WithinTrans(line, text, input);
      ArgumentWithin(line);
      WithinTrans(arg, line, input);
    }
  }

  // ---- every reply keeps the invariant ----

  lemma {:induction false} CheckedKeeps(input: string, t: History, payload: string, rest: string, deps: Deps)
    requires Invariant(input, t, true, deps) && Authenticated(t).None? && Within(payload, input)
    ensures Invariant(input, t + Checked(|t|, payload, rest, deps).replies, true, deps)
  {
    var replies := Checked(|t|, payload, rest, deps).replies;
    if replies == [] {
      assert t + replies == t;
    } else {
      if replies[0].AuthOk? { assert Grants(deps, |t|, payload, replies[0]); }
      FitKeeps(input, t, replies[0], true, deps);
    }
  }

  lemma {:induction false} PromptedKeeps(input: string, rest: string, t: History, deps: Deps)
    requires Suffix(rest, input) && Invariant(input, t, true, deps) && Authenticated(t).None?
    ensures Invariant(input, t + Prompted(rest, |t|, deps).replies, true, deps)
  {
    OtherKept(input, t, 334, true, deps);
    OneMore(t, Other(334));
    match LineAt(rest, MAX_COMMAND_LINE)
    case Line(text) =>
      PayloadWithin(rest, input, text);
      CheckedKeeps(input, t + [Other(334)], TrimLineEnd(text), rest[|text|..], deps);
      Prompts(t, Checked(|t| + 1, TrimLineEnd(text), rest[|text|..], deps));
    case _ =>
  }

  lemma {:induction false} Prompts(t: History, answer: Answer<string>)
    ensures t + [Other(334)] + answer.replies == t + AfterPrompt(answer).replies
  {
  }

  lemma {:induction false} PayloadWithin(rest: string, input: string, text: string)
    requires Suffix(rest, input) && LineAt(rest, MAX_COMMAND_LINE) == Line(text)
    ensures Within(TrimLineEnd(text), input)
  {
    LineWithin(rest, input);
    TrimLineEndWithin(text);
    WithinTrans(TrimLineEnd(text), text, input);
  }

  lemma {:induction false} AuthKeeps(input: string, rest: string, arg: string, t: History, isTls: bool, deps: Deps)
    requires Suffix(rest, input) && Invariant(input, t, isTls, deps) && (arg != "" ==> Within(arg, input))
    ensures Invariant(input, t + AuthReply(rest, arg, t, isTls, deps).replies, isTls, deps)
  {
    if !isTls {
      OtherKept(input, t, 530, isTls, deps);
    } else if Authenticated(t).Some? {
      OtherKept(input, t, 503, isTls, deps);
    } else if !WantsPlain(arg) {
      OtherKept(input, t, 504, isTls, deps);
      OtherKept(input, t + [Other(504)], 535, isTls, deps);
      assert t + [Other(504)] + [Other(535)] == t + [Other(504), Other(535)];
    } else if SplitCommand(arg).1 != "" {
      ArgumentWithin(arg);
      WithinTrans(SplitCommand(arg).1, arg, input);
      CheckedKeeps(input, t, SplitCommand(arg).1, rest, deps);
    } else {
      PromptedKeeps(input, rest, t, deps);
    }
  }

  lemma {:induction false} DataKeeps(input: string, rest: string, t: History, isTls: bool, deps: Deps)
    requires Invariant(input, t, isTls, deps) && FollowsData(rest, input)
    ensures Invariant(input, t + DataReply(rest, t, deps).replies, isTls, deps)
  {
    var replies := DataReply(rest, t, deps).replies;
    if replies == [] {
      assert t + replies == t;
    } else {
      FitKeeps(input, t, replies[0], isTls, deps);
    }
  }

  lemma {:induction false} ReplyKeeps(input: string, rest: string, c: Command, t: History, isTls: bool, deps: Deps)
    requires Suffix(rest, input) && Invariant(input, t, isTls, deps) && ArgFrom(input, c) && SentCommand(input, c)
    requires c.DataFollows? ==> FollowsData(rest, input)
    ensures Invariant(input, t + ReplyTo(rest, c, t, isTls, deps).replies, isTls, deps)
  {
    if c.Auth? {
      AuthKeeps(input, rest, c.arg, t, isTls, deps);
    } else if c.DataFollows? {
      DataKeeps(input, rest, t, isTls, deps);
    } else if c.Quit? {
      OtherKept(input, t, 221, isTls, deps);
    } else {
      SimpleKeeps(input, c, t, isTls, deps);
      SimpleAlone(rest, c, t, isTls, deps);
    }
  }

  lemma {:induction false} SimpleAlone(rest: string, c: Command, t: History, isTls: bool, deps: Deps)
    requires !c.Auth? && !c.DataFollows? && !c.Quit?
    ensures ReplyTo(rest, c, t, isTls, deps).replies == [SimpleReply(c, t, isTls, deps)]
  {
  }

  lemma {:induction false} SimpleKeeps(input: string, c: Command, t: History, isTls: bool, deps: Deps)
    requires Invariant(input, t, isTls, deps) && SentCommand(input, c)
    ensures Invariant(input, t + [SimpleReply(c, t, isTls, deps)], isTls, deps)
  {
    SimpleFits(input, c, t, isTls, deps);
    FitKeeps(input, t, SimpleReply(c, t, isTls, deps), isTls, deps);
  }

  lemma {:induction false} SimpleFits(input: string, c: Command, t: History, isTls: bool, deps: Deps)
    requires SentCommand(input, c)
    ensures Fits(input, t, SimpleReply(c, t, isTls, deps), isTls, deps)
  {
    match c
    case MailFrom(arg) => MailFits(input, arg, t, isTls, deps);
    case RcptTo(arg) => RcptFits(input, arg, t, isTls, deps);
    case _ =>
  }

  lemma {:induction false} MailFits(input: string, arg: string, t: History, isTls: bool, deps: Deps)
    requires SentCommand(input, MailFrom(arg))
    ensures Fits(input, t, MailAnswer(Authenticated(t), arg), isTls, deps)
  {
    var e := MailAnswer(Authenticated(t), arg);
    if e.MailOk? { assert Spells(MailFrom(arg), e); }
  }

  lemma {:induction false} RcptFits(input: string, arg: string, t: History, isTls: bool, deps: Deps)
    requires SentCommand(input, RcptTo(arg))
    ensures Fits(input, t, RcptAnswer(Mail(t).Some?, |Rcpts(t)|, arg), isTls, deps)
  {
    var e := RcptAnswer(Mail(t).Some?, |Rcpts(t)|, arg);
    if e.RcptOk? { assert Spells(RcptTo(arg), e); }
  }

  lemma {:induction false} LineKeeps(input: string, s: string, t: History, isTls: bool, deps: Deps, text: string)
    requires Suffix(s, input) && Invariant(input, t, isTls, deps) && LineAt(s, MAX_COMMAND_LINE) == Line(text)
    ensures Invariant(input, t + ReplyTo(s[|text|..], ParseCommand(text), t, isTls, deps).replies, isTls, deps)
  {
    LineWithin(s, input);
    ArgWithin(input, text);
    assert s[|text|..][0..] == s[|text|..];
    SuffixOfRest(s[|text|..], s, |text|, input);
    assert ParseCommand(text).DataFollows? ==> DataAt(input, s, s[|text|..]);
    assert CommandAt(input, s, ParseCommand(text));
    ReplyKeeps(input, s[|text|..], ParseCommand(text), t, isTls, deps);
  }

  ghost function Invariants(input: string, isTls: bool, deps: Deps): History -> bool {
    t => Invariant(input, t, isTls, deps)
  }

  lemma {:induction false} ServerPreserves(isTls: bool, deps: Deps, input: string)
    ensures Preserves(Serves(isTls, deps), Invariants(input, isTls, deps), input)
  {
    var inv := Invariants(input, isTls, deps);
    forall s, t | Suffix(s, input) && inv(t) ensures StepKeeps(Serves(isTls, deps), inv, s, t) {
      match LineAt(s, MAX_COMMAND_LINE)
      case Eof =>
      case TooLong => OtherKept(input, t, 500, isTls, deps);
      case Line(text) => LineKeeps(input, s, t, isTls, deps, text);
    }
  }

  /** Every session keeps the invariant, whatever the client sends. */
  lemma {:induction false} SessionKeepsInvariant(input: string, t: History, isTls: bool, deps: Deps)
    requires Invariant(input, t, isTls, deps)
    ensures var t' := Session(Serves(isTls, deps), input, t).0; t <= t' && Invariant(input, t', isTls, deps)
  {
    var inv := Invariants(input, isTls, deps);
    ServerPreserves(isTls, deps, input);
    assert inv(t) && Suffix(input, input);
    SessionKeeps(Serves(isTls, deps), inv, input, input, t);
    assert inv(Session(Serves(isTls, deps), input, t).0);
  }

  lemma {:induction false} Announces(isTls: bool, deps: Deps)
    ensures AnnouncesTls(Serves(isTls, deps))
  {
    forall rest, text, t | Serves(isTls, deps)(rest, text, t).next == Some(StartTls)
      ensures Serves(isTls, deps)(rest, text, t).replies == [TlsOk]
    {
      TlsAlone(rest, ParseCommand(text), t, isTls, deps);
    }
  }

  lemma {:induction false} TlsAlone(rest: string, c: Command, t: History, isTls: bool, deps: Deps)
    requires ReplyTo(rest, c, t, isTls, deps).next == Some(StartTls)
    ensures ReplyTo(rest, c, t, isTls, deps).replies == [TlsOk]
  {
    match c
    case Auth(arg) => AuthStays(rest, arg, t, isTls, deps);
    case _ =>
  }

  lemma {:induction false} AuthStays(rest: string, arg: string, t: History, isTls: bool, deps: Deps)
    ensures AuthReply(rest, arg, t, isTls, deps).next != Some(StartTls)
  {
    var payload := SplitCommand(arg).1;
    CheckedStays(|t|, payload, rest, deps);
    PromptedStays(rest, |t|, deps);
  }

  lemma {:induction false} CheckedStays(n: nat, payload: string, rest: string, deps: Deps)
    ensures Checked(n, payload, rest, deps).next != Some(StartTls)
  {
  }

  lemma {:induction false} PromptedStays(rest: string, n: nat, deps: Deps)
    ensures Prompted(rest, n, deps).next != Some(StartTls)
  {
    match LineAt(rest, MAX_COMMAND_LINE)
    case Line(text) => CheckedStays(n + 1, TrimLineEnd(text), rest[|text|..], deps);
    case _ =>
  }

  // ------------------------------------------------------------------
  // Connections
  // ------------------------------------------------------------------

  /** Port 587: plaintext until STARTTLS; then, unless bytes were pipelined or the
      handshake fails, a session over TLS that goes on from its history. */
  ghost function StartTlsConnection(plain: string, pipelined: bool, handshakeOk: bool, tls: string, deps: Deps): History {
    var (t, outcome) := Session(Serves(false, deps), plain, []);
    if outcome.Closed? || pipelined || !handshakeOk then t else Session(Serves(true, deps), tls, t).0
  }

  method HandleStartTlsConnection(plain: string, pipelined: bool, handshakeOk: bool, tls: string, deps: Deps)
    returns (t: History)
    ensures t == StartTlsConnection(plain, pipelined, handshakeOk, tls, deps)
  {
    var reader := new Reader(plain);
    var env := new Envelope();
    var outcome;
    outcome, t := CommandLoop(reader, env, false, deps, []);
    if !outcome.StartTls? || pipelined || !handshakeOk {
      return;
    }
    Announces(false, deps);
    UpgradeEndsWithTls(Serves(false, deps), plain, []);
    FreshAfterTls(t);
    var tlsReader := new Reader(tls);
    env := new Envelope();
    outcome, t := CommandLoop(tlsReader, env, true, deps, t);
  }

  /** The connection stays with what was said in plaintext if that did not end with an
      accepted STARTTLS, if bytes were pipelined after it or if the handshake failed; and
      otherwise goes on over TLS, with nothing said before counting. */
  lemma {:induction false} UpgradeExactly(plain: string, pipelined: bool, handshakeOk: bool, tls: string, deps: Deps)
    ensures var before := Session(Serves(false, deps), plain, []);
      var t := StartTlsConnection(plain, pipelined, handshakeOk, tls, deps);
      && (before.1.Closed? || pipelined || !handshakeOk ==> t == before.0)
      && (before.1.StartTls? && !pipelined && handshakeOk ==>
            && t == Session(Serves(true, deps), tls, before.0).0 && before.0 != [] && before.0[|before.0| - 1] == TlsOk
            && Mail(before.0).None? && Rcpts(before.0) == [] && !Greeted(before.0) && Authenticated(before.0).None?)
  {
    var before := Session(Serves(false, deps), plain, []);
    if before.1.StartTls? {
      Announces(false, deps);
      UpgradeEndsWithTls(Serves(false, deps), plain, []);
      FreshAfterTls(before.0);
    }
  }

  /** Port 465: TLS from the first byte. */
  method HandleImplicitConnection(handshakeOk: bool, tls: string, deps: Deps) returns (t: History)
    ensures t == if handshakeOk then Session(Serves(true, deps), tls, []).0 else []
    ensures Sound(tls, t, deps)
  {
    t := [];
    SessionKeepsInvariant(tls, [], true, deps);
    if !handshakeOk {
      return;
    }
    var reader := new Reader(tls);
    var env := new Envelope();
    var outcome;
    outcome, t := CommandLoop(reader, env, true, deps, t);
  }

  ghost predicate Barren(t: History) {
    forall k :: 0 <= k < |t| ==> !t[k].AuthOk? && !t[k].MailOk? && !t[k].RcptOk? && !t[k].Handed?
  }

  /** Before TLS no account, so no accepted MAIL or RCPT and nothing handed on. */
  lemma {:induction false} PlainIsBarren(plain: string, t: History, deps: Deps)
    requires Invariant(plain, t, false, deps)
    ensures Barren(t)
  {
    forall k: nat | k < |t| ensures !t[k].AuthOk? && !t[k].MailOk? && !t[k].Handed? {
      NobodyAuthenticated(t[..k]);
      assert Owned(t, k, deps);
    }
    forall k: nat | k < |t| ensures !t[k].RcptOk? {
      NoSender(t[..k]);
      assert Owned(t, k, deps);
    }
  }

  lemma {:induction false} NoSender(t: History)
    requires forall k :: 0 <= k < |t| ==> !t[k].MailOk?
    ensures Mail(t).None?
  {
    if t == [] {
    } else {
      NoSender(t[..|t| - 1]);
    }
  }

  lemma {:induction false} NobodyAuthenticated(t: History)
    requires NoAuth(t)
    ensures Authenticated(t).None?
  {
    if t == [] {
    } else {
      NobodyAuthenticated(t[..|t| - 1]);
    }
  }

  /** With nobody authenticated it does not matter what the client sent. */
  lemma {:induction false} NoAuthAnyInput(plain: string, tls: string, t: History, deps: Deps)
    requires Invariant(plain, t, false, deps)
    ensures Invariant(tls, t, true, deps)
  {
    PlainIsBarren(plain, t, deps);
    forall i: nat | i < |t| ensures Owned(t, i, deps) && FromInput(tls, t, i, deps) {
      assert Owned(t, i, deps);
    }
  }

  /** Every connection on port 587: what was said before TLS accepts no account, sender
      or message, and the whole history is sound for what was sent over TLS. */
  lemma {:induction false} ConnectionSound(plain: string, pipelined: bool, handshakeOk: bool, tls: string, deps: Deps)
    ensures var t := StartTlsConnection(plain, pipelined, handshakeOk, tls, deps);
      var before := Session(Serves(false, deps), plain, []).0;
      Sound(tls, t, deps) && before <= t && Barren(before) && (t != before ==> EndsWithTls(before))
  {
    var (before, outcome) := Session(Serves(false, deps), plain, []);
    SessionKeepsInvariant(plain, [], false, deps);
    PlainIsBarren(plain, before, deps);
    NoAuthAnyInput(plain, tls, before, deps);
    SessionKeepsInvariant(tls, before, true, deps);
    if outcome.StartTls? {
      Announces(false, deps);
      UpgradeEndsWithTls(Serves(false, deps), plain, []);
    }
  }

  // ------------------------------------------------------------------
  // What reaches the queue
  // ------------------------------------------------------------------

  lemma {:induction false} AuthenticatedBy(t: History) returns (j: nat)
    requires Authenticated(t).Some?
    ensures j < |t| && t[j] == AuthOk(Authenticated(t).value.0, Authenticated(t).value.1)
    ensures forall k :: j < k < |t| ==> !t[k].TlsOk?
  {
    if t[|t| - 1].AuthOk? {
      j := |t| - 1;
    } else {
      j := AuthenticatedBy(t[..|t| - 1]);
    }
  }

  /** A message handed on is one the client sent over TLS. It carries the address, up to
      case, of an account that was granted to credentials the client sent over TLS, and
      went to the queue in the name of that account. */
  lemma {:induction false} HandedSenderIsAuthenticated(tls: string, t: History, i: nat, deps: Deps)
    returns (j: nat, payload: string, account: Account)
    requires Sound(tls, t, deps) && i < |t| && t[i].Handed?
    ensures j < i && Within(payload, tls) && deps.authenticate(j, payload) == Granted(account)
    ensures t[j].AuthOk? && t[j].account == account.id && EqIgnoreCase(t[i].sender, account.localPart + ['@'] + account.domain)
    ensures RightCode(t[i].code, deps.enqueue(i, NewOutbound(account.id, t[i].sender, t[i].rcpts, false)))
    ensures Sent(t[i].bytes, tls, deps.maxMessageSize)
    ensures forall k :: 0 <= k < |t| && k != j ==> !t[k].AuthOk?
  {
    assert FromInput(tls, t, i, deps);
    assert Owned(t, i, deps);
    j := AuthenticatedBy(t[..i]);
    assert t[j] == t[..i][j];
    assert FromInput(tls, t, j, deps);
    payload :| Within(payload, tls) && Grants(deps, j, payload, t[j]);
    account := deps.authenticate(j, payload).account;
  }

  // ------------------------------------------------------------------
  // One final reply
  // ------------------------------------------------------------------

  /** Replies that end a command; 334 asks the client to go on. */
  function Finals(t: History): nat {
    if t == [] then 0 else Finals(t[..|t| - 1]) + if t[|t| - 1] == Other(334) then 0 else 1
  }

  /** AUTH with a mechanism the server does not know, when it would be tried. */
  predicate DoublyAnswered(c: Command, t: History, isTls: bool) {
    c.Auth? && isTls && Authenticated(t).None? && !WantsPlain(c.arg)
  }

  lemma {:induction false} FinalsOfOne(e: Event<string>)
    ensures Finals([e]) == if e == Other(334) then 0 else 1
  {
    assert [e][..0] == [];
  }

  lemma {:induction false} FinalsOfTwo(a: Event<string>, b: Event<string>)
    ensures Finals([a, b]) == Finals([a]) + Finals([b])
  {
    assert [a, b][..1] == [a];
    FinalsOfOne(b);
  }

  /** While the connection lasts, a command has exactly one final reply, except that
      AUTH with an unsupported mechanism has two. */
  lemma {:induction false} OneFinalReply(rest: string, c: Command, t: History, isTls: bool, deps: Deps)
    requires ReplyTo(rest, c, t, isTls, deps).next != Some(Closed)
    ensures Finals(ReplyTo(rest, c, t, isTls, deps).replies) == if DoublyAnswered(c, t, isTls) then 2 else 1
  {
    var replies := ReplyTo(rest, c, t, isTls, deps).replies;
    RepliesAre(rest, c, t, isTls, deps);
    FinalsOfOne(replies[0]);
    if |replies| == 1 {
      assert replies == [replies[0]];
    } else {
      assert replies == [replies[0], replies[1]];
      FinalsOfOne(replies[1]);
      FinalsOfTwo(replies[0], replies[1]);
    }
  }

  /** One final reply, perhaps after a prompt. */
  predicate SingleFinal(replies: History) {
    || (|replies| == 1 && replies[0] != Other(334))
    || (|replies| == 2 && replies[0] == Other(334) && replies[1] != Other(334))
  }

  lemma {:induction false} RepliesAre(rest: string, c: Command, t: History, isTls: bool, deps: Deps)
    requires ReplyTo(rest, c, t, isTls, deps).next != Some(Closed)
    ensures var replies := ReplyTo(rest, c, t, isTls, deps).replies;
      if DoublyAnswered(c, t, isTls) then replies == [Other(504), Other(535)] else SingleFinal(replies)
  {
    match c
    case Auth(arg) => AuthRepliesAre(rest, arg, t, isTls, deps);
    case DataFollows =>
    case Quit =>
    case _ => assert SimpleReply(c, t, isTls, deps) != Other(334);
  }

  lemma {:induction false} AuthRepliesAre(rest: string, arg: string, t: History, isTls: bool, deps: Deps)
    requires AuthReply(rest, arg, t, isTls, deps).next != Some(Closed)
    ensures var replies := AuthReply(rest, arg, t, isTls, deps).replies;
      if DoublyAnswered(Auth(arg), t, isTls) then replies == [Other(504), Other(535)] else SingleFinal(replies)
  {
    if isTls && Authenticated(t).None? && WantsPlain(arg) {
      var payload := SplitCommand(arg).1;
      if payload == "" {
        PromptedAre(rest, |t|, deps);
      } else {
        CheckedAre(|t|, payload, rest, deps);
      }
    }
  }

  lemma {:induction false} CheckedAre(n: nat, payload: string, rest: string, deps: Deps)
    requires Checked(n, payload, rest, deps).next != Some(Closed)
    ensures |Checked(n, payload, rest, deps).replies| == 1 && Checked(n, payload, rest, deps).replies[0] != Other(334)
  {
  }

  lemma {:induction false} PromptedAre(rest: string, n: nat, deps: Deps)
    requires Prompted(rest, n, deps).next != Some(Closed)
    ensures SingleFinal(Prompted(rest, n, deps).replies)
  {
  }

  // ------------------------------------------------------------------
  // What is refused, and how
  // ------------------------------------------------------------------

  /** A reply that leaves the transaction, the greeting and the account as they were. */
  ghost predicate Refuses(serve: Server<string>, line: string, t: History, code: nat) {
    && Gets(serve, line, t, Other(code))
    && Mail(t + [Other(code)]) == Mail(t) && Rcpts(t + [Other(code)]) == Rcpts(t)
    && Greeted(t + [Other(code)]) == Greeted(t) && Authenticated(t + [Other(code)]) == Authenticated(t)
  }

  lemma {:induction false} OtherRefuses(serve: Server<string>, line: string, t: History, code: nat)
    requires Gets(serve, line, t, Other(code))
    ensures Refuses(serve, line, t, code)
  {
    OneMore(t, Other(code));
  }

  /** MAIL: 530 without an account, 501 without an address, 553 with somebody else's. */
  lemma {:induction false} MailRefused(line: string, t: History, isTls: bool, deps: Deps)
    requires Readable(line) && ParseCommand(line).MailFrom?
    ensures var addr := ParseAddrParam(ParseCommand(line).arg, "FROM:");
      && (Authenticated(t).None? ==> Refuses(Serves(isTls, deps), line, t, 530))
      && (Authenticated(t).Some? && addr.None? ==> Refuses(Serves(isTls, deps), line, t, 501))
      && (Authenticated(t).Some? && addr.Some? && !EqIgnoreCase(addr.value, Authenticated(t).value.1) ==>
            Refuses(Serves(isTls, deps), line, t, 553))
  {
    var serve, addr := Serves(isTls, deps), ParseAddrParam(ParseCommand(line).arg, "FROM:");
    if Authenticated(t).None? {
      OtherRefuses(serve, line, t, 530);
    } else if addr.None? {
      OtherRefuses(serve, line, t, 501);
    } else if !EqIgnoreCase(addr.value, Authenticated(t).value.1) {
      OtherRefuses(serve, line, t, 553);
    }
  }

  /** RCPT: 503 without a sender, 501 without a valid address, 452 when the transaction is
      full; and nothing changes. */
  lemma {:induction false} RcptRefused(line: string, t: History, isTls: bool, deps: Deps)
    requires Readable(line) && ParseCommand(line).RcptTo?
    ensures var addr := ParseAddrParam(ParseCommand(line).arg, "TO:");
      && (Mail(t).None? ==> Refuses(Serves(isTls, deps), line, t, 503))
      && (Mail(t).Some? && addr.None? ==> Refuses(Serves(isTls, deps), line, t, 501))
      && (Mail(t).Some? && addr.Some? && |Rcpts(t)| >= 100 ==> Refuses(Serves(isTls, deps), line, t, 452))
      && (Mail(t).Some? && addr.Some? && |Rcpts(t)| < 100 && !Input.ValidEmailAddress(addr.value) ==>
            Refuses(Serves(isTls, deps), line, t, 501))
  {
    var serve, addr := Serves(isTls, deps), ParseAddrParam(ParseCommand(line).arg, "TO:");
    if Mail(t).None? {
      OtherRefuses(serve, line, t, 503);
    } else if addr.None? {
      OtherRefuses(serve, line, t, 501);
    } else if |Rcpts(t)| >= 100 {
      OtherRefuses(serve, line, t, 452);
    } else if !Input.ValidEmailAddress(addr.value) {
      OtherRefuses(serve, line, t, 501);
    }
  }

  /** AUTH: 530 before TLS, 503 after success, 535 for credentials that are denied, after
      a 504 if the mechanism is unknown and a 334 if they had to be asked for. */
  lemma {:induction false} AuthRefused(line: string, rest: string, t: History, isTls: bool, deps: Deps)
    requires Readable(line) && ParseCommand(line).Auth?
    ensures var (mechanism, payload) := SplitCommand(ParseCommand(line).arg);
      var answer := Serves(isTls, deps)(rest, line, t);
      && (!isTls ==> Refuses(Serves(isTls, deps), line, t, 530))
      && (isTls && Authenticated(t).Some? ==> Refuses(Serves(isTls, deps), line, t, 503))
      && (isTls && Authenticated(t).None? && Lower(mechanism) != "plain" ==> answer == Answer([Other(504), Other(535)], None, rest))
      && (isTls && Authenticated(t).None? && Lower(mechanism) == "plain" && payload != "" && deps.authenticate(|t|, payload).Denied? ==>
            answer == Answer([Other(535)], None, rest))
      && (isTls && Authenticated(t).None? && Lower(mechanism) == "plain" && payload == "" ==>
            match LineAt(rest, MAX_COMMAND_LINE)
            case Line(text) =>
              deps.authenticate(|t| + 1, TrimLineEnd(text)).Denied? ==> answer == Answer([Other(334), Other(535)], None, rest[|text|..])
            case _ => answer.replies == [Other(334)] && answer.next == Some(Closed))
  {
    PlainInLowerCase();
    if !isTls { OtherRefuses(Serves(isTls, deps), line, t, 530); }
    if isTls && Authenticated(t).Some? { OtherRefuses(Serves(isTls, deps), line, t, 503); }
  }

  lemma {:induction false} PlainInLowerCase()
    ensures Lower("PLAIN") == "plain"
  {
  }

  /** The other commands without a message: a bad domain is 501; RSET forgets the
      transaction and nothing else; NOOP is 250; STARTTLS is 503 over TLS and 501 with an
      argument; an unknown command is 502. */
  lemma {:induction false} OthersAnswered(line: string, t: History, isTls: bool, deps: Deps)
    requires Readable(line)
    ensures var c, serve := ParseCommand(line), Serves(isTls, deps);
      && (c.Helo? && !deps.validHelo(Trim(c.arg)) ==> Refuses(serve, line, t, 501))
      && (c.Rset? ==> Gets(serve, line, t, RsetOk) && Mail(t + [RsetOk]).None? && Rcpts(t + [RsetOk]) == []
                      && Greeted(t + [RsetOk]) == Greeted(t) && Authenticated(t + [RsetOk]) == Authenticated(t))
      && (c.Noop? ==> Refuses(serve, line, t, 250))
      && (c.Tls? && isTls ==> Refuses(serve, line, t, 503))
      && (c.Tls? && !isTls && c.arg != "" ==> Refuses(serve, line, t, 501))
      && (c.Unknown? ==> Refuses(serve, line, t, 502))
  {
    OneMore(t, RsetOk);
    forall code | Gets(Serves(isTls, deps), line, t, Other(code)) ensures Refuses(Serves(isTls, deps), line, t, code) {
      OtherRefuses(Serves(isTls, deps), line, t, code);
    }
  }

  /** What ends a session: QUIT, an upgrade, and DATA with too much or too little after it.
      DATA without a sender or without recipients is 503. */
  lemma {:induction false} EndsAnswered(line: string, rest: string, t: History, isTls: bool, deps: Deps)
    requires Readable(line)
    ensures var c, session := ParseCommand(line), Session(Serves(isTls, deps), line + rest, t);
      && (c.Quit? ==> session == (t + [Other(221)], Closed))
      && (c == Tls("") && !isTls ==> session == (t + [TlsOk], StartTls))
      && (c.DataFollows? && (Mail(t).None? || Rcpts(t) == []) ==> Refuses(Serves(isTls, deps), line, t, 503))
      && (c.DataFollows? && Mail(t).Some? && Rcpts(t) != [] ==>
            && (Decode(rest, [], deps.maxMessageSize).0.DataTooLarge? ==> session == (t + [Other(552)], Closed))
            && (Decode(rest, [], deps.maxMessageSize).0.DataIo? ==> session == (t, Closed)))
  {
    ReadsLine(line, rest);
    assert (line + rest)[|line|..] == rest && t + [] == t;
    assert Session(Serves(isTls, deps), line + rest, t) == SessionFrom(Serves(isTls, deps), rest, line, t);
    OneMore(t, Other(503));
  }

  // ------------------------------------------------------------------
  // What is accepted
  // ------------------------------------------------------------------

  /** The line is a greeting, and this domain is accepted. */
  predicate Greets(line: string, domain: string, deps: Deps) {
    Readable(line) && ParseCommand(line).Helo? && domain == Trim(ParseCommand(line).arg) && deps.validHelo(domain)
  }

  /** The line is AUTH PLAIN with credentials that are granted at this point. */
  predicate Authenticates(line: string, account: Account, now: nat, deps: Deps) {
    && Readable(line) && ParseCommand(line).Auth? && WantsPlain(ParseCommand(line).arg)
    && SplitCommand(ParseCommand(line).arg).1 != ""
    && deps.authenticate(now, SplitCommand(ParseCommand(line).arg).1) == Granted(account)
  }

  /** The line is a MAIL command with this sender. */
  predicate Opens(line: string, sender: string) {
    Readable(line) && ParseCommand(line).MailFrom? && ParseAddrParam(ParseCommand(line).arg, "FROM:") == Some(sender)
  }

  /** The line is a RCPT command for this address. */
  predicate Addresses(line: string, rcpt: string) {
    && Readable(line) && ParseCommand(line).RcptTo? && ParseAddrParam(ParseCommand(line).arg, "TO:") == Some(rcpt)
    && Input.ValidEmailAddress(rcpt)
  }

  ghost function Addressees(): Addressing<string> { (line, rcpt, n: nat) => Addresses(line, rcpt) }

  lemma {:induction false} GreetingGets(line: string, domain: string, t: History, deps: Deps)
    requires Greets(line, domain, deps)
    ensures Gets(Serves(true, deps), line, t, HeloOk(domain)) && Authenticated(t + [HeloOk(domain)]) == Authenticated(t)
  {
    OneMore(t, HeloOk(domain));
  }

  lemma {:induction false} AuthGets(line: string, account: Account, t: History, deps: Deps)
    requires Authenticates(line, account, |t|, deps) && Authenticated(t).None?
    ensures var e := AuthOk(account.id, account.Address());
      Gets(Serves(true, deps), line, t, e) && Authenticated(t + [e]) == Some((account.id, account.Address()))
  {
    OneMore(t, AuthOk(account.id, account.Address()));
  }

  lemma {:induction false} MailGets(line: string, sender: string, t: History, deps: Deps)
    requires Opens(line, sender) && Authenticated(t).Some? && EqIgnoreCase(sender, Authenticated(t).value.1)
    ensures Gets(Serves(true, deps), line, t, MailOk(sender)) && Authenticated(t + [MailOk(sender)]) == Authenticated(t)
    ensures Addressed(t + [MailOk(sender)], sender, [])
  {
    OneMore(t, MailOk(sender));
  }

  lemma {:induction false} RcptGets(line: string, rcpt: string, t: History, deps: Deps)
    requires Addresses(line, rcpt) && Mail(t).Some? && |Rcpts(t)| < MAX_RECIPIENTS
    ensures Gets(Serves(true, deps), line, t, RcptOk(rcpt))
  {
  }

  lemma {:induction false} ServerTakes(deps: Deps)
    ensures Takes(Serves(true, deps), Addressees())
  {
    forall line, r, t | Addressees()(line, r, |t|) && Mail(t).Some? && |Rcpts(t)| < MAX_RECIPIENTS
      ensures Gets(Serves(true, deps), line, t, RcptOk(r))
    {
      RcptGets(line, r, t, deps);
    }
  }

  lemma {:induction false} DataAnswer(wire: string, message: string, rest: string, t: History, deps: Deps)
    requires Mail(t).Some? && Rcpts(t) != [] && HasAccount(t) && Decode(wire, [], deps.maxMessageSize) == (Data(message), rest)
    ensures ReplyTo(wire, DataFollows, t, true, deps) == Answer([QueueReplies(t, message, deps)], None, rest)
  {
  }

  lemma {:induction false} DataQueued(line: string, message: string, end: string, rest: string, t: History, deps: Deps, handed: Event<string>)
    requires Readable(line) && ParseCommand(line) == DataFollows
    requires Mail(t).Some? && Rcpts(t) != [] && Authenticated(t).Some? && Sendable(message, deps.maxMessageSize) && IsTerminator(end)
    requires handed == QueueReplies(t, message, deps)
    ensures Leads(Serves(true, deps), line + Wire(Lines(message), end, rest), t, rest, t + [handed])
  {
    var wire := Wire(Lines(message), end, rest);
    DecodesSendable(message, end, rest, deps.maxMessageSize, wire);
    DataAnswer(wire, message, rest, t, deps);
    Answers(Serves(true, deps), line, wire, t, [handed], rest);
  }

  /** What the client is answered up to DATA. */
  function Accepted(domain: string, account: Account, sender: string, rcpts: seq<string>): History {
    [HeloOk(domain)] + ([AuthOk(account.id, account.Address())] + ([MailOk(sender)] + RcptOks(rcpts)))
  }

  lemma {:induction false} EnvelopeLeads(serve: Server<string>, addresses: Addressing<string>, hello: string, domain: string, auth: string, account: Account,
                                         mail: string, sender: string, rcptLines: seq<string>, rcpts: seq<string>, rest: string, t: History)
    requires var e := AuthOk(account.id, account.Address());
      && Gets(serve, hello, t, HeloOk(domain)) && Gets(serve, auth, t + [HeloOk(domain)], e)
      && Gets(serve, mail, t + [HeloOk(domain)] + [e], MailOk(sender)) && Takes(serve, addresses)
    requires AllAddress(addresses, rcptLines, rcpts, |t| + 3) && |rcpts| <= MAX_RECIPIENTS
    ensures Leads(serve, hello + (auth + (mail + (Flatten(rcptLines) + rest))), t, rest, t + Accepted(domain, account, sender, rcpts))
    ensures Addressed(t + Accepted(domain, account, sender, rcpts), sender, rcpts)
    ensures Authenticated(t + Accepted(domain, account, sender, rcpts)) == Some((account.id, account.Address()))
  {
    var e, t1, more := AuthOk(account.id, account.Address()), t + [HeloOk(domain)], mail + (Flatten(rcptLines) + rest);
    var t2, t' := t1 + [e], t + Accepted(domain, account, sender, rcpts);
    var events := [MailOk(sender)] + RcptOks(rcpts);
    OneMore(t1, e);
    assert t' == t2 + events && t' == t1 + ([e] + events);
    TransactionLeads(serve, addresses, mail, sender, rcptLines, rcpts, rest, t2, t');
    OneMoreLeads(serve, auth, e, more, t1, rest, events);
    OneMoreLeads(serve, hello, HeloOk(domain), auth + more, t, rest, [e] + events);
  }

  /** Over TLS with nobody authenticated yet: a greeting, credentials that are granted,
      the account's own address as the sender, up to a hundred valid recipients and a
      message within the limits, dot-stuffed and terminated. Each is accepted, the queue
      gets the message byte for byte for exactly those recipients in the account's name,
      and the session goes on with the input after it. */
  lemma {:induction false} MessageQueued(hello: string, domain: string, auth: string, account: Account, mail: string, sender: string,
                                         rcptLines: seq<string>, rcpts: seq<string>, message: string, end: string, rest: string, t: History, deps: Deps)
    requires Authenticated(t).None? && Greets(hello, domain, deps) && Authenticates(auth, account, |t| + 1, deps)
    requires Opens(mail, sender) && EqIgnoreCase(sender, account.Address())
    requires AllAddress(Addressees(), rcptLines, rcpts, |t| + 3) && 1 <= |rcpts| <= MAX_RECIPIENTS
    requires Sendable(message, deps.maxMessageSize) && IsTerminator(end)
    ensures var t' := t + Accepted(domain, account, sender, rcpts);
      Leads(Serves(true, deps), hello + (auth + (mail + (Flatten(rcptLines) + (DATA_LINE + Wire(Lines(message), end, rest))))), t,
            rest, t' + [Handed(sender, rcpts, message, QueueCode(deps.enqueue(|t'|, Submitted(account.id, sender, rcpts))))])
  {
    var t1 := t + [HeloOk(domain)];
    GreetingGets(hello, domain, t, deps);
    AuthGets(auth, account, t1, deps);
    MailGets(mail, sender, t1 + [AuthOk(account.id, account.Address())], deps);
    ServerTakes(deps);
    MessageLeads(hello, domain, auth, account, mail, sender, rcptLines, rcpts, message, end, rest, t, deps);
  }

  lemma {:induction false} MessageLeads(hello: string, domain: string, auth: string, account: Account, mail: string, sender: string,
                                        rcptLines: seq<string>, rcpts: seq<string>, message: string, end: string, rest: string, t: History, deps: Deps)
    requires var serve, e := Serves(true, deps), AuthOk(account.id, account.Address());
      && Gets(serve, hello, t, HeloOk(domain)) && Gets(serve, auth, t + [HeloOk(domain)], e)
      && Gets(serve, mail, t + [HeloOk(domain)] + [e], MailOk(sender)) && Takes(serve, Addressees())
    requires AllAddress(Addressees(), rcptLines, rcpts, |t| + 3) && 1 <= |rcpts| <= MAX_RECIPIENTS
    requires Sendable(message, deps.maxMessageSize) && IsTerminator(end)
    ensures var t' := t + Accepted(domain, account, sender, rcpts);
      Leads(Serves(true, deps), hello + (auth + (mail + (Flatten(rcptLines) + (DATA_LINE + Wire(Lines(message), end, rest))))), t,
            rest, t' + [Handed(sender, rcpts, message, QueueCode(deps.enqueue(|t'|, Submitted(account.id, sender, rcpts))))])
  {
    var serve, data := Serves(true, deps), DATA_LINE + Wire(Lines(message), end, rest);
    EnvelopeLeads(serve, Addressees(), hello, domain, auth, account, mail, sender, rcptLines, rcpts, data, t);
    var t' := t + Accepted(domain, account, sender, rcpts);
    var handed := QueueReplies(t', message, deps);
    DataLineParses();
    DataQueued(DATA_LINE, message, end, rest, t', deps, handed);
    LeadsOn(serve, hello + (auth + (mail + (Flatten(rcptLines) + data))), t, data, t', rest, t' + [handed]);
  }

  // ---- in the usual spelling ----

  lemma {:induction false} OpeningSpelled(domain: string, payload: string, account: Account, now: nat, sender: string, deps: Deps)
    requires deps.validHelo(domain) && Tight(domain) && |domain| <= 4000
    requires Tight(payload) && |payload| <= 4000 && deps.authenticate(now, payload) == Granted(account)
    requires '\n' !in sender && '>' !in sender && |sender| <= 4000
    ensures Greets(HeloLine(domain), domain, deps) && Authenticates(AuthLine(payload), account, now, deps) && Opens(MailLine(sender), sender)
  {
    HeloLineParses(domain);
    AuthLineParses(payload);
    MailLineParses(sender);
  }

  lemma {:induction false} RcptSpelled(rcpt: string)
    requires Input.ValidEmailAddress(rcpt)
    ensures Addresses(RcptLine(rcpt), rcpt)
  {
    Input.AddressIsShort(rcpt);
    RcptLineParses(rcpt);
  }

  function RcptLines(rcpts: seq<string>): seq<string> {
    if rcpts == [] then [] else [RcptLine(rcpts[0])] + RcptLines(rcpts[1..])
  }

  lemma {:induction false} RcptsSpelled(rcpts: seq<string>, n: nat)
    requires forall k :: 0 <= k < |rcpts| ==> Input.ValidEmailAddress(rcpts[k])
    ensures AllAddress(Addressees(), RcptLines(rcpts), rcpts, n)
  {
    if rcpts == [] {
    } else {
      RcptSpelled(rcpts[0]);
      RcptsSpelled(rcpts[1..], n + 1);
      assert RcptLines(rcpts)[1..] == RcptLines(rcpts[1..]);
    }
  }

  /** The same with EHLO, `AUTH PLAIN ..`, `MAIL FROM:<..>` and `RCPT TO:<..>` lines. */
  lemma {:induction false} SpelledMessageQueued(domain: string, payload: string, account: Account, sender: string, rcpts: seq<string>,
                                                message: string, end: string, rest: string, t: History, deps: Deps)
    requires Authenticated(t).None? && deps.validHelo(domain) && Tight(domain) && |domain| <= 4000
    requires Tight(payload) && |payload| <= 4000 && deps.authenticate(|t| + 1, payload) == Granted(account)
    requires '\n' !in sender && '>' !in sender && |sender| <= 4000 && EqIgnoreCase(sender, account.Address())
    requires ValidRecipients(rcpts) && Sendable(message, deps.maxMessageSize) && IsTerminator(end)
    ensures var t' := t + Accepted(domain, account, sender, rcpts);
      var data := Flatten(RcptLines(rcpts)) + (DATA_LINE + Wire(Lines(message), end, rest));
      Leads(Serves(true, deps), HeloLine(domain) + (AuthLine(payload) + (MailLine(sender) + data)), t,
            rest, t' + [Handed(sender, rcpts, message, QueueCode(deps.enqueue(|t'|, Submitted(account.id, sender, rcpts))))])
  {
    OpeningSpelled(domain, payload, account, |t| + 1, sender, deps);
    RcptsSpelled(rcpts, |t| + 3);
    MessageQueued(HeloLine(domain), domain, AuthLine(payload), account, MailLine(sender), sender, RcptLines(rcpts), rcpts, message, end, rest, t, deps);
  }

  /** For a provisioned account the whole envelope check of `enqueue` passes
      exactly if the account's address fits in 254 bytes. */
  lemma {:induction false} EnvelopeCheckPasses(account: Account, sender: string, rcpts: seq<string>)
    requires Input.ValidLocalPart(account.localPart) && Input.ValidDomainName(account.domain)
    requires EqIgnoreCase(sender, account.Address()) && ValidRecipients(rcpts)
    ensures ValidEnvelope(Submitted(account.id, sender, rcpts)) <==> Input.Utf8Len(account.Address()) <= 254
  {
    Input.ProvisionedAddress(account.localPart, account.domain);
    Input.ValidityIgnoresCase(sender, account.Address());
    assert |Lower(sender)| == |Lower(account.Address())|;
    assert sender != "";
  }
}
