/** The byte level both SMTP servers share: bounded lines, the DATA decoder and
    command parsing (crates/smtp-in/src/session.rs, crates/submission/src/session.rs).
    Bytes are characters; commands are ASCII. */
module SmtpWire {
  import opened Text

  const MAX_COMMAND_LINE: nat := 4096
  const MAX_DATA_LINE: nat := 65536

  datatype LineResult = Line(text: string) | Eof | TooLong

  /** Index of the first line feed, or the length of the input. */
  function LineFeedAt(s: string): (k: nat)
    ensures k <= |s|
    ensures forall i :: 0 <= i < k ==> s[i] != '\n'
    ensures k < |s| ==> s[k] == '\n'
  {
    if s == [] || s[0] == '\n' then 0 else 1 + LineFeedAt(s[1..])
  }

  /** What `read_line_bounded` finds at the front of the input: up to maxLen bytes
      and a line feed, so a line can be maxLen + 1 bytes long. */
  function LineAt(s: string, maxLen: nat): (r: LineResult)
    ensures r.Line? ==> 1 <= |r.text| <= |s| && |r.text| <= maxLen + 1
  {
    var k := LineFeedAt(s);
    if k < |s| && k <= maxLen then Line(s[..k + 1])
    else if |s| <= maxLen then Eof
    else TooLong
  }

  lemma {:induction false} FeedEndsLine(s: string, line: string)
    requires IsLine(line) && line <= s
    ensures LineFeedAt(s) == |line| - 1
  {
    assert forall i :: 0 <= i < |line| ==> s[i] == line[i];
  }

  lemma {:induction false} NoFeedSoFar(s: string, out: string)
    requires out <= s && forall i :: 0 <= i < |out| ==> out[i] != '\n'
    ensures LineFeedAt(s) >= |out|
  {
    assert forall i :: 0 <= i < |out| ==> s[i] == out[i];
  }

  lemma {:induction false} ReadsWhole(s: string, out: string, maxLen: nat)
    requires IsLine(out) && |out| <= |s| && out == s[..|out|] && |out| <= maxLen + 1
    ensures LineAt(s, maxLen) == Line(out)
  {
    FeedEndsLine(s, out);
  }

  lemma {:induction false} ReadsTooLong(s: string, out: string, maxLen: nat)
    requires |out| <= |s| && out == s[..|out|] && |out| > maxLen && forall i :: 0 <= i < |out| ==> out[i] != '\n'
    ensures LineAt(s, maxLen) == TooLong
  {
    NoFeedSoFar(s, out);
  }

  lemma {:induction false} ReadsEof(s: string, out: string, maxLen: nat)
    requires |out| == |s| && out == s[..|out|] && |out| <= maxLen && forall i :: 0 <= i < |out| ==> out[i] != '\n'
    ensures LineAt(s, maxLen) == Eof
  {
    assert s[..|s|] == s;
    NoFeedSoFar(s, out);
  }

  /** What the three answers mean. */
  lemma {:induction false} LineAtExactly(s: string, maxLen: nat)
    ensures var r := LineAt(s, maxLen);
      && (r.Line? ==> IsLine(r.text) && r.text <= s)
      && (r.Eof? <==> |s| <= maxLen && '\n' !in s)
      && (r.TooLong? <==> |s| > maxLen && '\n' !in s[..maxLen + 1])
  {
    var k := LineFeedAt(s);
    if k < |s| {
      assert s[k] in s;
      if k <= maxLen < |s| { assert s[..maxLen + 1][k] == '\n'; }
    }
  }

  class Reader {
    const input: string
    var pos: nat

    ghost predicate Valid() reads this { pos <= |input| }

    /** The bytes not read yet. */
    ghost function Rest(): string
      reads this
      requires Valid()
    {
      input[pos..]
    }

    constructor (input: string)
      ensures Valid() && this.input == input && pos == 0
    {
      this.input := input;
      pos := 0;
    }

    method ReadLineBounded(maxLen: nat) returns (r: LineResult)
      requires Valid()
      modifies this`pos
      ensures Valid() && r == LineAt(old(Rest()), maxLen)
      ensures r.Line? ==> Rest() == old(Rest())[|r.text|..] && pos == old(pos) + |r.text|
      ensures old(pos) <= pos && (r.Line? ==> old(pos) < pos)
    {
      var out: string := [];
      ghost var s := Rest();
      while true
        invariant Valid() && |out| <= maxLen && pos == old(pos) + |out| && out == s[..|out|]
        invariant forall i :: 0 <= i < |out| ==> out[i] != '\n'
        decreases |input| - pos
      {
        if pos == |input| {
          ReadsEof(s, out, maxLen);
          return Eof;
        }
        var byte := input[pos];
        assert byte == s[|out|];
        pos := pos + 1;
        out := out + [byte];
        if byte == '\n' {
          ReadsWhole(s, out, maxLen);
          return Line(out);
        }
        if |out| > maxLen {
          ReadsTooLong(s, out, maxLen);
          return TooLong;
        }
      }
    }

    /** `read_data`: decodes up to the terminator, within both limits. */
    method ReadData(maxSize: nat) returns (r: DataResult)
      requires Valid()
      modifies this`pos
      ensures Valid() && old(pos) <= pos
      ensures r == Decode(old(Rest()), [], maxSize).0
      ensures r.Data? ==> Rest() == Decode(old(Rest()), [], maxSize).1 && |r.bytes| <= maxSize
    {
      var out: string := [];
      ghost var s := Rest();
      while true
        invariant Valid() && old(pos) <= pos && |out| <= maxSize
        invariant Decode(s, [], maxSize) == Decode(Rest(), out, maxSize)
        decreases |input| - pos
      {
        var line := ReadLineBounded(MAX_DATA_LINE);
        match line
        case TooLong => return DataTooLarge;
        case Eof => return DataIo;
        case Line(text) =>
          if text == ".\r\n" || text == ".\n" {
            return Data(out);
          }
          var content := if text[0] == '.' then text[1..] else text;
          if |out| + |content| > maxSize {
            return DataTooLarge;
          }
          out := out + content;
      }
    }
  }

  // ------------------------------------------------------------------
  // DATA: decoder and encoder
  // ------------------------------------------------------------------

  datatype DataResult = Data(bytes: string) | DataTooLarge | DataIo

  predicate IsTerminator(line: string) { line == ".\r\n" || line == ".\n" }

  function Unstuff(line: string): string { if line != [] && line[0] == '.' then line[1..] else line }

  /** The decoder as a function of the input: the result and the bytes after it. */
  function Decode(s: string, out: string, maxSize: nat): (DataResult, string)
    decreases |s|
  {
    match LineAt(s, MAX_DATA_LINE)
    case TooLong => (DataTooLarge, s)
    case Eof => (DataIo, s)
    case Line(text) =>
      if IsTerminator(text) then (Data(out), s[|text|..])
      else if |out| + |Unstuff(text)| > maxSize then (DataTooLarge, s)
      else Decode(s[|text|..], out + Unstuff(text), maxSize)
  }

  /** A line feed at the end and nowhere else. */
  predicate IsLine(l: string) {
    l != [] && l[|l| - 1] == '\n' && forall i :: 0 <= i < |l| - 1 ==> l[i] != '\n'
  }

  predicate AllLines(lines: seq<string>) {
    lines == [] || (IsLine(lines[0]) && AllLines(lines[1..]))
  }

  function Flatten(lines: seq<string>): string {
    if lines == [] then [] else lines[0] + Flatten(lines[1..])
  }

  /** Section 4.5.2 of RFC 5321: a line that begins with a period gets another. */
  function Stuff(l: string): string { if l != [] && l[0] == '.' then ['.'] + l else l }

  function StuffAll(lines: seq<string>): string {
    if lines == [] then [] else Stuff(lines[0]) + StuffAll(lines[1..])
  }

  /** The lines of a message that ends with a line feed (or is empty). */
  function Lines(message: string): seq<string>
    requires Terminated(message)
  {
    if message == [] then []
    else
      var k := LineFeedAt(message);
      assert k < |message|;
      [message[..k + 1]] + Lines(message[k + 1..])
  }

  predicate Terminated(message: string) { message == [] || message[|message| - 1] == '\n' }

  lemma {:induction false} LinesCons(first: string, lines: seq<string>)
    ensures Flatten([first] + lines) == first + Flatten(lines)
    ensures AllLines([first] + lines) <==> IsLine(first) && AllLines(lines)
  {
    assert ([first] + lines)[1..] == lines;
  }

  /** A message that is not empty starts with a line. */
  lemma {:induction false} SplitFirstLine(message: string) returns (first: string, rest: string)
    requires Terminated(message) && message != []
    ensures message == first + rest && IsLine(first) && Terminated(rest)
    ensures Lines(message) == [first] + Lines(rest)
  {
    var k := LineFeedAt(message);
    first, rest := message[..k + 1], message[k + 1..];
  }

  lemma {:induction false} LinesOfMessage(message: string)
    requires Terminated(message)
    ensures Flatten(Lines(message)) == message
    ensures AllLines(Lines(message))
    decreases |message|
  {
    if message == [] {
    } else {
      var first, rest := SplitFirstLine(message);
      LinesOfMessage(rest);
      LinesCons(first, Lines(rest));
    }
  }

  /** The first line feed of a text that starts with a line is that line's. */
  lemma {:induction false} FeedOfPrefix(l: string, rest: string)
    requires IsLine(l)
    ensures LineFeedAt(l + rest) == |l| - 1
  {
    assert (l + rest)[|l| - 1] == '\n';
    assert forall i :: 0 <= i < |l| - 1 ==> (l + rest)[i] == l[i];
  }

  lemma {:induction false} StuffKeepsLine(l: string)
    requires IsLine(l)
    ensures IsLine(Stuff(l)) && Unstuff(Stuff(l)) == l && !IsTerminator(Stuff(l))
  {
    if l[0] == '.' {
      assert Stuff(l)[1..] == l;
    }
  }

  /** Every stuffed line is readable and the message respects the size limit. */
  predicate Fits(lines: seq<string>, used: nat, maxSize: nat) {
    lines == [] || (FitsLine(lines[0], used, maxSize) && Fits(lines[1..], used + |lines[0]|, maxSize))
  }

  predicate FitsLine(l: string, used: nat, maxSize: nat) { |Stuff(l)| <= MAX_DATA_LINE + 1 && used + |l| <= maxSize }

  /** What is on the wire for these lines. */
  function Wire(lines: seq<string>, end: string, rest: string): string { StuffAll(lines) + end + rest }

  lemma {:induction false} WireCons(lines: seq<string>, end: string, rest: string)
    requires lines != []
    ensures Wire(lines, end, rest) == Stuff(lines[0]) + Wire(lines[1..], end, rest)
  {
  }

  lemma {:induction false} DecodeLines(lines: seq<string>, out: string, end: string, rest: string, maxSize: nat)
    requires AllLines(lines)
    requires IsTerminator(end) && Fits(lines, |out|, maxSize)
    ensures Decode(Wire(lines, end, rest), out, maxSize) == (Data(out + Flatten(lines)), rest)
    decreases |lines|
  {
    if lines == [] {
      DecodeEnd(out, end, rest, maxSize);
    } else {
      var tail := Wire(lines[1..], end, rest);
      DecodeLines(lines[1..], out + lines[0], end, rest, maxSize);
      WireCons(lines, end, rest);
      FlattenFirst(lines, out);
      DecodeFirst(lines[0], tail, out, maxSize);
    }
  }

  lemma {:induction false} DecodeEnd(out: string, end: string, rest: string, maxSize: nat)
    requires IsTerminator(end)
    ensures Decode(Wire([], end, rest), out, maxSize) == (Data(out + Flatten([])), rest)
  {
    assert Wire([], end, rest) == end + rest && out + Flatten([]) == out;
    DecodeStep(end, rest, out, maxSize);
  }

  lemma {:induction false} FlattenFirst(lines: seq<string>, out: string)
    requires lines != []
    ensures out + lines[0] + Flatten(lines[1..]) == out + Flatten(lines)
  {
  }

  lemma {:induction false} DecodeFirst(l: string, tail: string, out: string, maxSize: nat)
    requires IsLine(l) && FitsLine(l, |out|, maxSize)
    ensures Decode(Stuff(l) + tail, out, maxSize) == Decode(tail, out + l, maxSize)
  {
    StuffKeepsLine(l);
    DecodeStep(Stuff(l), tail, out, maxSize);
  }

  lemma {:induction false} DecodeTooLong(lines: seq<string>, out: string, end: string, rest: string, maxSize: nat)
    requires AllLines(lines)
    requires !Fits(lines, |out|, maxSize)
    ensures Decode(Wire(lines, end, rest), out, maxSize).0 == DataTooLarge
    decreases |lines|
  {
    var first, tail := lines[0], Wire(lines[1..], end, rest);
    WireCons(lines, end, rest);
    if FitsLine(first, |out|, maxSize) {
      DecodeTooLong(lines[1..], out + first, end, rest, maxSize);
      DecodeFirst(first, tail, out, maxSize);
    } else {
      TooLongFirst(first, tail, out, maxSize);
    }
  }

  lemma {:induction false} TooLongFirst(l: string, tail: string, out: string, maxSize: nat)
    requires IsLine(l) && !FitsLine(l, |out|, maxSize)
    ensures Decode(Stuff(l) + tail, out, maxSize).0 == DataTooLarge
  {
    StuffKeepsLine(l);
    DecodeStep(Stuff(l), tail, out, maxSize);
  }

  /** One line of decoding. */
  lemma {:induction false} DecodeStep(l: string, tail: string, out: string, maxSize: nat)
    requires IsLine(l)
    ensures Decode(l + tail, out, maxSize) ==
      if |l| > MAX_DATA_LINE + 1 then (DataTooLarge, l + tail)
      else if IsTerminator(l) then (Data(out), tail)
      else if |out| + |Unstuff(l)| > maxSize then (DataTooLarge, l + tail)
      else Decode(tail, out + Unstuff(l), maxSize)
  {
    LineAtFront(l, tail);
  }

  lemma {:induction false} LineAtFront(l: string, tail: string)
    requires IsLine(l)
    ensures LineAt(l + tail, MAX_DATA_LINE) == if |l| <= MAX_DATA_LINE + 1 then Line(l) else TooLong
    ensures (l + tail)[|l|..] == tail
  {
    FeedOfPrefix(l, tail);
    assert (l + tail)[..|l|] == l;
  }

  predicate ShortLines(lines: seq<string>) {
    lines == [] || (|Stuff(lines[0])| <= MAX_DATA_LINE + 1 && ShortLines(lines[1..]))
  }

  lemma {:induction false} FitsShort(lines: seq<string>, used: nat, maxSize: nat)
    requires used <= maxSize
    ensures Fits(lines, used, maxSize) <==> used + |Flatten(lines)| <= maxSize && ShortLines(lines)
  {
    if lines == [] {
    } else {
      assert |Flatten(lines)| == |lines[0]| + |Flatten(lines[1..])|;
      if used + |lines[0]| <= maxSize { FitsShort(lines[1..], used + |lines[0]|, maxSize); }
    }
  }

  lemma {:induction false} ShortExactly(lines: seq<string>)
    ensures ShortLines(lines) <==> forall i :: 0 <= i < |lines| ==> |Stuff(lines[i])| <= MAX_DATA_LINE + 1
  {
    if lines == [] {
    } else {
      var rest := lines[1..];
      ShortExactly(rest);
      assert forall i :: 1 <= i < |lines| ==> lines[i] == rest[i - 1];
      assert forall i :: 0 <= i < |rest| ==> rest[i] == lines[i + 1];
    }
  }

  lemma {:induction false} FitsSize(lines: seq<string>, used: nat, maxSize: nat)
    requires used <= maxSize
    ensures Fits(lines, used, maxSize) <==>
      && used + |Flatten(lines)| <= maxSize
      && forall i :: 0 <= i < |lines| ==> |Stuff(lines[i])| <= MAX_DATA_LINE + 1
  {
    FitsShort(lines, used, maxSize);
    ShortExactly(lines);
  }

  /** Dot transparency: the stuffed form of any message of complete lines, ended by
      either terminator and followed by anything, decodes to exactly that message
      with the following input untouched, if and only if it is within the size
      limit and no stuffed line is longer than the line limit plus its feed. */
  lemma {:induction false} DotTransparency(message: string, end: string, rest: string, maxSize: nat)
    requires Terminated(message) && IsTerminator(end)
    ensures var sent := Wire(Lines(message), end, rest);
      if |message| <= maxSize && forall i :: 0 <= i < |Lines(message)| ==> |Stuff(Lines(message)[i])| <= MAX_DATA_LINE + 1
      then Decode(sent, [], maxSize) == (Data(message), rest)
      else Decode(sent, [], maxSize).0 == DataTooLarge
  {
    var lines := Lines(message);
    LinesOfMessage(message);
    FitsSize(lines, 0, maxSize);
    if Fits(lines, 0, maxSize) {
      DecodeLines(lines, [], end, rest, maxSize);
    } else {
      DecodeTooLong(lines, [], end, rest, maxSize);
    }
    assert [] + Flatten(lines) == message;
  }

  function UnstuffAll(lines: seq<string>): string {
    if lines == [] then [] else Unstuff(lines[0]) + UnstuffAll(lines[1..])
  }

  /** The converse: whatever is accepted was a sequence of non-terminator lines, a
      terminator and the rest, and the message is those lines without their dots. */
  lemma {:induction false} AcceptedMeans(s: string, out: string, maxSize: nat) returns (lines: seq<string>, end: string)
    requires Decode(s, out, maxSize).0.Data? && |out| <= maxSize
    ensures IsTerminator(end) && s == Flatten(lines) + end + Decode(s, out, maxSize).1
    ensures AllLines(lines) && forall i :: 0 <= i < |lines| ==> !IsTerminator(lines[i])
    ensures Decode(s, out, maxSize).0.bytes == out + UnstuffAll(lines)
    ensures |Decode(s, out, maxSize).0.bytes| <= maxSize
    decreases |s|
  {
    var text := LineAt(s, MAX_DATA_LINE).text;
    var tail := s[|text|..];
    LineAtIsLine(s);
    assert s == text + tail;
    DecodeStep(text, tail, out, maxSize);
    if IsTerminator(text) {
      lines, end := [], text;
      assert Flatten(lines) + end + tail == text + tail;
      assert out + [] == out;
    } else {
      var more, end' := AcceptedMeans(tail, out + Unstuff(text), maxSize);
      lines, end := [text] + more, end';
      FlattenCons(text, more, out, end, Decode(s, out, maxSize).1);
      MoreLines(text, more);
    }
  }

  lemma {:induction false} MoreLines(text: string, more: seq<string>)
    requires IsLine(text) && !IsTerminator(text) && AllLines(more) && forall i :: 0 <= i < |more| ==> !IsTerminator(more[i])
    ensures AllLines([text] + more) && forall i :: 0 <= i < |more| + 1 ==> !IsTerminator(([text] + more)[i])
  {
  }

  lemma {:induction false} FlattenCons(text: string, more: seq<string>, out: string, end: string, rest: string)
    ensures Flatten([text] + more) + end + rest == text + (Flatten(more) + end + rest)
    ensures out + UnstuffAll([text] + more) == out + Unstuff(text) + UnstuffAll(more)
  {
    assert ([text] + more)[1..] == more;
  }

  lemma {:induction false} LineAtIsLine(s: string)
    requires LineAt(s, MAX_DATA_LINE).Line?
    ensures IsLine(LineAt(s, MAX_DATA_LINE).text)
  {
  }

  // ------------------------------------------------------------------
  // Commands
  // ------------------------------------------------------------------

  function UpperChar(c: char): char { if 'a' <= c <= 'z' then (c as int - 32) as char else c }

  function Upper(s: string): string { if s == [] then [] else [UpperChar(s[0])] + Upper(s[1..]) }

  function TrimLineEnd(s: string): string {
    if s != [] && (s[|s| - 1] == '\r' || s[|s| - 1] == '\n') then TrimLineEnd(s[..|s| - 1]) else s
  }

  function IndexOf(s: string, c: char): (k: nat)
    ensures k <= |s|
    ensures forall i :: 0 <= i < k ==> s[i] != c
    ensures k < |s| ==> s[k] == c
  {
    if s == [] || s[0] == c then 0 else 1 + IndexOf(s[1..], c)
  }

  function SplitCommand(line: string): (string, string) {
    var k := IndexOf(line, ' ');
    if k < |line| then (line[..k], Trim(line[k + 1..])) else (line, "")
  }

  /** `PREFIX<addr>`, prefix in any case, anything after the closing bracket. */
  function ParseAddrParam(arg: string, prefix: string): Option<string> {
    var arg := Trim(arg);
    if |arg| < |prefix| || !EqIgnoreCase(arg[..|prefix|], prefix) then None
    else
      var after := TrimStart(arg[|prefix|..]);
      if after == [] || after[0] != '<' then None
      else
        var inner := after[1..];
        var k := IndexOf(inner, '>');
        if k < |inner| then Some(inner[..k]) else None
  }

  datatype Command = Helo(arg: string) | Tls(arg: string) | Auth(arg: string) | MailFrom(arg: string)
                   | RcptTo(arg: string) | DataFollows | Rset | Noop | Quit | Unknown

  /** The command on a line; verbs are matched in any case. */
  function ParseCommand(text: string): Command {
    var (verb, arg) := SplitCommand(TrimLineEnd(text));
    match Upper(verb)
    case "EHLO" => Helo(arg)
    case "HELO" => Helo(arg)
    case "STARTTLS" => Tls(arg)
    case "AUTH" => Auth(arg)
    case "MAIL" => MailFrom(arg)
    case "RCPT" => RcptTo(arg)
    case "DATA" => DataFollows
    case "RSET" => Rset
    case "NOOP" => Noop
    case "QUIT" => Quit
    case _ => Unknown
  }

  // ------------------------------------------------------------------
  // Lines as a client writes them
  // ------------------------------------------------------------------

  /** A line the servers read as a command. */
  predicate Readable(line: string) { IsLine(line) && |line| <= 4097 }

  lemma {:induction false} ReadsLine(line: string, rest: string)
    requires Readable(line)
    ensures LineAt(line + rest, MAX_COMMAND_LINE) == Line(line) && (line + rest)[|line|..] == rest
  {
    FeedOfPrefix(line, rest);
    assert (line + rest)[..|line|] == line;
  }

  const CRLF := "\r\n"

  /** No blank at either end and no line feed inside. */
  predicate Tight(s: string) {
    s != [] && !IsAsciiSpace(s[0]) && !IsAsciiSpace(s[|s| - 1]) && '\n' !in s
  }

  function CommandLine(verb: string, arg: string): string { verb + [' '] + arg + CRLF }

  lemma {:induction false} TrimsCrlf(s: string)
    requires s != [] && !IsAsciiSpace(s[|s| - 1])
    ensures TrimLineEnd(s + CRLF) == s
  {
    assert (s + CRLF)[|s| + 1] == '\n' && (s + CRLF)[..|s| + 1] == s + ['\r'];
    assert (s + ['\r'])[|s|] == '\r' && (s + ['\r'])[..|s|] == s;
    assert TrimLineEnd(s + ['\r']) == TrimLineEnd(s) == s;
  }

  lemma {:induction false} IndexAfter(a: string, c: char, b: string)
    requires c !in a
    ensures IndexOf(a + [c] + b, c) == |a|
  {
    var s := a + [c] + b;
    assert s[|a|] == c;
    assert forall i :: 0 <= i < |a| ==> s[i] == a[i] && a[i] in a;
  }

  lemma {:induction false} TrimsTight(s: string)
    requires Tight(s)
    ensures Trim(s) == s
  {
  }

  lemma {:induction false} SplitsCommand(verb: string, arg: string)
    requires ' ' !in verb && Tight(arg)
    ensures SplitCommand(verb + [' '] + arg) == (verb, arg)
  {
    IndexAfter(verb, ' ', arg);
    var s := verb + [' '] + arg;
    assert s[..|verb|] == verb && s[|verb| + 1..] == arg;
    TrimsTight(arg);
  }

  lemma {:induction false} CommandLineSplits(verb: string, arg: string)
    requires ' ' !in verb && '\n' !in verb && Tight(arg)
    ensures IsLine(CommandLine(verb, arg)) && SplitCommand(TrimLineEnd(CommandLine(verb, arg))) == (verb, arg)
  {
    var s := verb + [' '] + arg;
    TrimsCrlf(s);
    SplitsCommand(verb, arg);
    assert '\n' !in s;
    assert CommandLine(verb, arg) == s + CRLF;
  }

  function AddrParam(prefix: string, addr: string): string { prefix + ['<'] + addr + ['>'] }

  lemma {:induction false} AddrParses(prefix: string, addr: string)
    requires prefix != [] && !IsAsciiSpace(prefix[0]) && '\n' !in prefix && '\n' !in addr && '>' !in addr
    ensures Tight(AddrParam(prefix, addr)) && ParseAddrParam(AddrParam(prefix, addr), prefix) == Some(addr)
  {
    var arg, after := AddrParam(prefix, addr), ['<'] + addr + ['>'];
    TrimsTight(arg);
    assert arg[..|prefix|] == prefix && arg[|prefix|..] == after;
    var inner := addr + ['>'];
    assert after[1..] == inner && inner == addr + ['>'] + [];
    IndexAfter(addr, '>', []);
    assert inner[..|addr|] == addr;
  }

  lemma {:induction false} AddrLineSplits(verb: string, prefix: string, addr: string)
    requires ' ' !in verb && '\n' !in verb
    requires prefix != [] && !IsAsciiSpace(prefix[0]) && '\n' !in prefix && '\n' !in addr && '>' !in addr
    ensures IsLine(CommandLine(verb, AddrParam(prefix, addr)))
    ensures SplitCommand(TrimLineEnd(CommandLine(verb, AddrParam(prefix, addr)))) == (verb, AddrParam(prefix, addr))
    ensures ParseAddrParam(AddrParam(prefix, addr), prefix) == Some(addr)
  {
    AddrParses(prefix, addr);
    CommandLineSplits(verb, AddrParam(prefix, addr));
  }

  function MailLine(sender: string): string { CommandLine("MAIL", AddrParam("FROM:", sender)) }

  function RcptLine(rcpt: string): string { CommandLine("RCPT", AddrParam("TO:", rcpt)) }

  function HeloLine(domain: string): string { CommandLine("EHLO", domain) }

  function AuthLine(payload: string): string { CommandLine("AUTH", "PLAIN" + [' '] + payload) }

  const DATA_LINE := "DATA\r\n"

  lemma {:induction false} MailLineParses(sender: string)
    requires '\n' !in sender && '>' !in sender
    ensures IsLine(MailLine(sender)) && ParseCommand(MailLine(sender)) == MailFrom(AddrParam("FROM:", sender))
    ensures ParseAddrParam(AddrParam("FROM:", sender), "FROM:") == Some(sender)
  {
    AddrLineSplits("MAIL", "FROM:", sender);
    UpperOfFour("MAIL");
    VerbParses(MailLine(sender), "MAIL", AddrParam("FROM:", sender));
  }

  lemma {:induction false} RcptLineParses(rcpt: string)
    requires '\n' !in rcpt && '>' !in rcpt
    ensures IsLine(RcptLine(rcpt)) && ParseCommand(RcptLine(rcpt)) == RcptTo(AddrParam("TO:", rcpt))
    ensures ParseAddrParam(AddrParam("TO:", rcpt), "TO:") == Some(rcpt)
  {
    AddrLineSplits("RCPT", "TO:", rcpt);
    UpperOfFour("RCPT");
    VerbParses(RcptLine(rcpt), "RCPT", AddrParam("TO:", rcpt));
  }

  lemma {:induction false} HeloLineParses(domain: string)
    requires Tight(domain)
    ensures IsLine(HeloLine(domain)) && ParseCommand(HeloLine(domain)) == Helo(domain) && Trim(domain) == domain
  {
    CommandLineSplits("EHLO", domain);
    TrimsTight(domain);
    UpperOfFour("EHLO");
    VerbParses(HeloLine(domain), "EHLO", domain);
  }

  lemma {:induction false} AuthLineParses(payload: string)
    requires Tight(payload)
    ensures IsLine(AuthLine(payload)) && ParseCommand(AuthLine(payload)) == Auth("PLAIN" + [' '] + payload)
    ensures SplitCommand("PLAIN" + [' '] + payload) == ("PLAIN", payload)
  {
    AuthSplits("PLAIN", payload, "AUTH");
    UpperOfFour("AUTH");
    VerbParses(AuthLine(payload), "AUTH", "PLAIN" + [' '] + payload);
  }

  lemma {:induction false} AuthSplits(mechanism: string, payload: string, verb: string)
    requires mechanism != [] && !IsAsciiSpace(mechanism[0]) && ' ' !in mechanism && '\n' !in mechanism && Tight(payload)
    requires ' ' !in verb && '\n' !in verb
    ensures var arg := mechanism + [' '] + payload;
      && SplitCommand(arg) == (mechanism, payload)
      && IsLine(CommandLine(verb, arg)) && SplitCommand(TrimLineEnd(CommandLine(verb, arg))) == (verb, arg)
  {
    var arg := mechanism + [' '] + payload;
    assert arg[0] == mechanism[0] && arg[|arg| - 1] == payload[|payload| - 1];
    SplitsCommand(mechanism, payload);
    CommandLineSplits(verb, arg);
  }

  lemma {:induction false} DataLineParses()
    ensures Readable(DATA_LINE) && ParseCommand(DATA_LINE) == DataFollows
  {
    assert DATA_LINE == "DATA" + CRLF;
    TrimsCrlf("DATA");
    UpperOfFour("DATA");
    VerbParses(DATA_LINE, "DATA", "");
  }

  lemma {:induction false} VerbParses(line: string, verb: string, arg: string)
    requires SplitCommand(TrimLineEnd(line)) == (verb, arg) && Upper(verb) == verb
    ensures verb == "EHLO" ==> ParseCommand(line) == Helo(arg)
    ensures verb == "MAIL" ==> ParseCommand(line) == MailFrom(arg)
    ensures verb == "RCPT" ==> ParseCommand(line) == RcptTo(arg)
    ensures verb == "AUTH" ==> ParseCommand(line) == Auth(arg)
    ensures verb == "DATA" ==> ParseCommand(line) == DataFollows
  {
  }

  lemma {:induction false} UpperOfFour(s: string)
    requires |s| == 4 && forall i :: 0 <= i < 4 ==> UpperChar(s[i]) == s[i]
    ensures Upper(s) == s
  {
    assert s[1..][1..][1..][1..] == [] && s[1..][1..][1..] == [s[3]] && s[1..][1..] == [s[2], s[3]] && s[1..] == [s[1], s[2], s[3]];
    assert Upper([s[3]]) == [s[3]];
    assert Upper([s[2], s[3]]) == [s[2], s[3]];
    assert Upper([s[1], s[2], s[3]]) == [s[1], s[2], s[3]];
  }
}
