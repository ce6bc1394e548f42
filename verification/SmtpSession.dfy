/** A session as a function: what a server answers to everything a client sends.
    Both SMTP servers run the same loop over lines (crates/smtp-in/src/session.rs,
    crates/submission/src/session.rs); a server here is what it answers to one line. */
module SmtpSession {
  import opened Text
  import opened SmtpWire
  import opened SmtpTrace

  datatype LoopOutcome = Closed | StartTls

  /** The replies to a line, whether the session ends, and otherwise the input left. */
  datatype Answer<+R> = Answer(replies: seq<Event<R>>, next: Option<LoopOutcome>, rest: string)

  /** The answer to a line, given the input after it and the history before it. */
  type Server<!R> = (string, string, seq<Event<R>>) -> Answer<R>

  predicate Suffix(x: string, s: string) { |x| <= |s| && s[|s| - |x|..] == x }

  /** The whole session. */
  ghost function Session<R>(serve: Server<R>, input: string, t: seq<Event<R>>): (seq<Event<R>>, LoopOutcome)
    decreases |input|, 0
  {
    match LineAt(input, MAX_COMMAND_LINE)
    case Eof => (t, Closed)
    case TooLong => (t + [Other(500)], Closed)
    case Line(text) => SessionFrom(serve, input[|text|..], text, t)
  }

  /** The session from a line on, with the input after it. */
  ghost function SessionFrom<R>(serve: Server<R>, rest: string, text: string, t: seq<Event<R>>): (seq<Event<R>>, LoopOutcome)
    decreases |rest|, 1
  {
    var answer := serve(rest, text, t);
    if answer.next.Some? then (t + answer.replies, answer.next.value)
    else if Suffix(answer.rest, rest) then Session(serve, answer.rest, t + answer.replies)
    else (t, Closed)
  }

  /** The answer was given: history, outcome and input left are as it says. */
  predicate Did<R(==)>(answer: Answer<R>, t: seq<Event<R>>, next: Option<LoopOutcome>, t': seq<Event<R>>, left: string) {
    t' == t + answer.replies && next == answer.next && (next.None? ==> left == answer.rest)
  }

  /** This session is over with t', or is the one that goes on from there. */
  ghost predicate Continues<R>(session: (seq<Event<R>>, LoopOutcome), serve: Server<R>, next: Option<LoopOutcome>, t': seq<Event<R>>, left: string) {
    session == if next.None? then Session(serve, left, t') else (t', next.value)
  }

  lemma {:induction false} LineContinues<R>(serve: Server<R>, input: string, text: string, t: seq<Event<R>>,
                                            next: Option<LoopOutcome>, t': seq<Event<R>>, left: string)
    requires LineAt(input, MAX_COMMAND_LINE) == Line(text) && Suffix(left, input[|text|..])
    requires Did(serve(input[|text|..], text, t), t, next, t', left)
    ensures Continues(Session(serve, input, t), serve, next, t', left)
  {
  }

  /** A session ends with its input: silently, if less than a line is left, and with 500 if
      the next line is longer than 4096 bytes and its line feed. */
  lemma {:induction false} EndsWithInput<R>(serve: Server<R>, input: string, t: seq<Event<R>>)
    ensures |input| <= 4096 && '\n' !in input ==> Session(serve, input, t) == (t, Closed)
    ensures |input| > 4096 && '\n' !in input[..4097] ==> Session(serve, input, t) == (t + [Other(500)], Closed)
  {
    var k := LineFeedAt(input);
    assert k < |input| ==> input[k] in input && (k <= 4096 && |input| > 4096 ==> input[..4097][k] == '\n');
  }

  // ------------------------------------------------------------------
  // Properties of sessions from properties of answers
  // ------------------------------------------------------------------

  /** The answer to the first line of this input keeps `inv`. */
  ghost predicate StepKeeps<R>(serve: Server<R>, inv: seq<Event<R>> -> bool, input: string, t: seq<Event<R>>) {
    match LineAt(input, MAX_COMMAND_LINE)
    case Eof => true
    case TooLong => inv(t + [Other(500)])
    case Line(text) => inv(t + serve(input[|text|..], text, t).replies)
  }

  ghost predicate Preserves<R(!new)>(serve: Server<R>, inv: seq<Event<R>> -> bool, whole: string) {
    forall input, t :: Suffix(input, whole) && inv(t) ==> StepKeeps(serve, inv, input, t)
  }

  /** What every answer keeps, every session keeps; and a session only adds. */
  lemma {:induction false} SessionKeeps<R(!new)>(serve: Server<R>, inv: seq<Event<R>> -> bool, whole: string, input: string, t: seq<Event<R>>)
    requires Preserves(serve, inv, whole) && inv(t) && Suffix(input, whole)
    ensures inv(Session(serve, input, t).0) && t <= Session(serve, input, t).0
    decreases |input|
  {
    assert StepKeeps(serve, inv, input, t);
    match LineAt(input, MAX_COMMAND_LINE)
    case Eof =>
    case TooLong =>
    case Line(text) =>
      var rest := input[|text|..];
      var answer := serve(rest, text, t);
      if answer.next.None? && Suffix(answer.rest, rest) {
        SuffixOfRest(answer.rest, input, |text|, whole);
        SessionKeeps(serve, inv, whole, answer.rest, t + answer.replies);
      }
  }

  lemma {:induction false} SuffixOfRest(x: string, input: string, n: nat, whole: string)
    requires n <= |input| && Suffix(x, input[n..]) && Suffix(input, whole)
    ensures Suffix(x, whole)
  {
    assert input[n..][|input| - n - |x|..] == input[|input| - |x|..];
    assert whole[|whole| - |input|..][|input| - |x|..] == whole[|whole| - |x|..];
  }

  predicate EndsWithTls<R>(t: seq<Event<R>>) { t != [] && t[|t| - 1].TlsOk? }

  /** A server that goes over to TLS says so and nothing else. */
  ghost predicate AnnouncesTls<R(!new)>(serve: Server<R>) {
    forall rest, text, t :: serve(rest, text, t).next == Some(StartTls) ==> serve(rest, text, t).replies == [TlsOk]
  }

  lemma {:induction false} UpgradeEndsWithTls<R(!new)>(serve: Server<R>, input: string, t: seq<Event<R>>)
    requires AnnouncesTls(serve) && Session(serve, input, t).1.StartTls?
    ensures EndsWithTls(Session(serve, input, t).0)
    decreases |input|
  {
    var text := LineAt(input, MAX_COMMAND_LINE).text;
    var answer := serve(input[|text|..], text, t);
    if answer.next.Some? {
    } else {
      UpgradeEndsWithTls(serve, answer.rest, t + answer.replies);
    }
  }

  /** After TLS nothing said before counts. */
  lemma {:induction false} FreshAfterTls<R>(t: seq<Event<R>>)
    requires EndsWithTls(t)
    ensures Mail(t).None? && Rcpts(t) == [] && !Greeted(t) && Authenticated(t).None?
  {
    assert t == t[..|t| - 1] + [TlsOk];
    OneMore(t[..|t| - 1], TlsOk);
  }

  // ------------------------------------------------------------------
  // What was handed on was sent
  // ------------------------------------------------------------------

  /** From here the client sent a DATA line and then this. */
  predicate DataAt(input: string, at: string, rest: string) {
    && Suffix(at, input) && LineAt(at, MAX_COMMAND_LINE).Line?
    && ParseCommand(LineAt(at, MAX_COMMAND_LINE).text).DataFollows? && rest == at[|LineAt(at, MAX_COMMAND_LINE).text|..]
  }

  ghost predicate FollowsData(rest: string, input: string) { exists at :: DataAt(input, at, rest) }

  /** Somewhere in the input there is a line with this command. */
  ghost predicate SentCommand(input: string, c: Command) { exists at :: CommandAt(input, at, c) }

  predicate CommandAt(input: string, at: string, c: Command) {
    Suffix(at, input) && LineAt(at, MAX_COMMAND_LINE).Line? && ParseCommand(LineAt(at, MAX_COMMAND_LINE).text) == c
  }

  /** These bytes are what decoding the input after a DATA line gives. */
  ghost predicate Sent(bytes: string, input: string, maxSize: nat) {
    exists rest :: FollowsData(rest, input) && Decode(rest, [], maxSize).0 == Data(bytes)
  }

  /** Everything handed on since `from` was sent. */
  ghost predicate AllSent<R>(input: string, from: nat, t: seq<Event<R>>, maxSize: nat) {
    forall i :: from <= i < |t| && t[i].Handed? ==> Sent(t[i].bytes, input, maxSize)
  }

  // ------------------------------------------------------------------
  // Sessions forwards
  // ------------------------------------------------------------------

  /** With this input after this history, the session comes to that input after that
      history. */
  ghost predicate Leads<R>(serve: Server<R>, input: string, t: seq<Event<R>>, left: string, t': seq<Event<R>>) {
    Session(serve, input, t) == Session(serve, left, t')
  }

  lemma {:induction false} LeadsOn<R>(serve: Server<R>, a: string, t: seq<Event<R>>, b: string, u: seq<Event<R>>, c: string, v: seq<Event<R>>)
    requires Leads(serve, a, t, b, u) && Leads(serve, b, u, c, v)
    ensures Leads(serve, a, t, c, v)
  {
  }

  /** One line that the server answers and goes on after. */
  lemma {:induction false} Answers<R>(serve: Server<R>, line: string, rest: string, t: seq<Event<R>>, replies: seq<Event<R>>, left: string)
    requires Readable(line) && serve(rest, line, t) == Answer(replies, None, left) && Suffix(left, rest)
    ensures Leads(serve, line + rest, t, left, t + replies)
  {
    ReadsLine(line, rest);
    LineContinues(serve, line + rest, line, t, None, t + replies, left);
  }

  /** Whatever follows it, this line has this one reply. */
  ghost predicate Gets<R>(serve: Server<R>, line: string, t: seq<Event<R>>, e: Event<R>) {
    Readable(line) && forall rest :: serve(rest, line, t) == Answer([e], None, rest)
  }

  /** One line and then others. */
  lemma {:induction false} OneMoreLeads<R>(serve: Server<R>, line: string, e: Event<R>, more: string, t: seq<Event<R>>, left: string, events: seq<Event<R>>)
    requires Gets(serve, line, t, e) && Leads(serve, more, t + [e], left, t + [e] + events)
    ensures Leads(serve, line + more, t, left, t + ([e] + events))
  {
    Answers(serve, line, more, t, [e], more);
    assert t + [e] + events == t + ([e] + events);
    LeadsOn(serve, line + more, t, more, t + [e], left, t + ([e] + events));
  }

  /** When a RCPT line is for a recipient that is accepted at this point. */
  type Addressing<!R> = (string, R, nat) -> bool

  ghost predicate AllAddress<R>(addresses: Addressing<R>, lines: seq<string>, rcpts: seq<R>, n: nat) {
    |lines| == |rcpts| &&
    (lines == [] || (addresses(lines[0], rcpts[0], n) && AllAddress(addresses, lines[1..], rcpts[1..], n + 1)))
  }

  /** The server takes such recipients while there is room. */
  ghost predicate Takes<R(!new)>(serve: Server<R>, addresses: Addressing<R>) {
    forall line, r, t :: addresses(line, r, |t|) && Mail(t).Some? && |Rcpts(t)| < MAX_RECIPIENTS ==> Gets(serve, line, t, RcptOk(r))
  }

  /** The transaction in progress. */
  ghost predicate Addressed<R>(t: seq<Event<R>>, sender: string, rcpts: seq<R>) { Mail(t) == Some(sender) && Rcpts(t) == rcpts }

  lemma {:induction false} RcptsLead<R(!new)>(serve: Server<R>, addresses: Addressing<R>, lines: seq<string>, rcpts: seq<R>, rest: string,
                                              t: seq<Event<R>>, sender: string, done: seq<R>)
    requires Takes(serve, addresses) && AllAddress(addresses, lines, rcpts, |t|)
    requires Addressed(t, sender, done) && |done| + |rcpts| <= MAX_RECIPIENTS
    ensures Leads(serve, Flatten(lines) + rest, t, rest, t + RcptOks(rcpts)) && Addressed(t + RcptOks(rcpts), sender, done + rcpts)
    decreases |lines|
  {
    if lines == [] {
      assert Flatten(lines) + rest == rest && t + RcptOks(rcpts) == t && done + rcpts == done;
    } else {
      var ok, more := RcptOk(rcpts[0]), Flatten(lines[1..]) + rest;
      assert Gets(serve, lines[0], t, ok);
      AddressedNext(t, sender, done, rcpts[0]);
      RcptsLead(serve, addresses, lines[1..], rcpts[1..], rest, t + [ok], sender, done + [rcpts[0]]);
      OneMoreLeads(serve, lines[0], ok, more, t, rest, RcptOks(rcpts[1..]));
      FirstOfAll(lines, rest, t, rcpts, done);
    }
  }

  lemma {:induction false} OksKeepAccount<R>(t: seq<Event<R>>, rcpts: seq<R>)
    ensures Authenticated(t + RcptOks(rcpts)) == Authenticated(t)
    decreases |rcpts|
  {
    if rcpts == [] {
      assert t + RcptOks(rcpts) == t;
    } else {
      OneMore(t, RcptOk(rcpts[0]));
      OksKeepAccount(t + [RcptOk(rcpts[0])], rcpts[1..]);
      FirstOfAll([""], "", t, rcpts, []);
    }
  }

  lemma {:induction false} AddressedNext<R>(t: seq<Event<R>>, sender: string, done: seq<R>, r: R)
    requires Addressed(t, sender, done)
    ensures Addressed(t + [RcptOk(r)], sender, done + [r])
  {
    OneMore(t, RcptOk(r));
  }

  lemma {:induction false} FirstOfAll<R>(lines: seq<string>, rest: string, t: seq<Event<R>>, rcpts: seq<R>, done: seq<R>)
    requires lines != [] && rcpts != []
    ensures lines[0] + (Flatten(lines[1..]) + rest) == Flatten(lines) + rest
    ensures [RcptOk(rcpts[0])] + RcptOks(rcpts[1..]) == RcptOks(rcpts)
    ensures t + [RcptOk(rcpts[0])] + RcptOks(rcpts[1..]) == t + RcptOks(rcpts)
    ensures done + [rcpts[0]] + rcpts[1..] == done + rcpts
  {
  }

  /** Within the limits of the DATA decoder. */
  predicate Sendable(message: string, maxSize: nat) {
    && Terminated(message) && |message| <= maxSize
    && forall i :: 0 <= i < |Lines(message)| ==> |Stuff(Lines(message)[i])| <= 65537
  }

  /** The decoder finds such a message, and leaves the input after it. */
  lemma {:induction false} DecodesSendable(message: string, end: string, rest: string, maxSize: nat, wire: string)
    requires Sendable(message, maxSize) && IsTerminator(end) && wire == Wire(Lines(message), end, rest)
    ensures Decode(wire, [], maxSize) == (Data(message), rest) && Suffix(rest, wire)
  {
    DotTransparency(message, end, rest, maxSize);
    assert wire[|wire| - |rest|..] == rest;
  }

  /** A sender and recipients. */
  lemma {:induction false} TransactionLeads<R(!new)>(serve: Server<R>, addresses: Addressing<R>, mail: string, sender: string,
                                                     lines: seq<string>, rcpts: seq<R>, rest: string, t: seq<Event<R>>, t': seq<Event<R>>)
    requires Gets(serve, mail, t, MailOk(sender)) && Takes(serve, addresses)
    requires AllAddress(addresses, lines, rcpts, |t| + 1) && |rcpts| <= MAX_RECIPIENTS
    requires t' == t + ([MailOk(sender)] + RcptOks(rcpts))
    ensures Leads(serve, mail + (Flatten(lines) + rest), t, rest, t') && Addressed(t', sender, rcpts)
    ensures Authenticated(t') == Authenticated(t)
  {
    var t1 := t + [MailOk(sender)];
    OneMore(t, MailOk(sender));
    RcptsLead(serve, addresses, lines, rcpts, rest, t1, sender, []);
    OksKeepAccount(t1, rcpts);
    OneMoreLeads(serve, mail, MailOk(sender), Flatten(lines) + rest, t, rest, RcptOks(rcpts));
    assert t1 + RcptOks(rcpts) == t' && [] + rcpts == rcpts;
  }

  function RcptOks<R>(rcpts: seq<R>): seq<Event<R>> {
    if rcpts == [] then [] else [RcptOk(rcpts[0])] + RcptOks(rcpts[1..])
  }
}
