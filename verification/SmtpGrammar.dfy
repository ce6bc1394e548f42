/** What the hand-written parsers of the SMTP servers read, as grammars: command lines and
    address parameters (crates/smtp-in/src/session.rs, crates/submission/src/session.rs)
    and mail addresses (crates/common/src/input.rs). */
module SmtpGrammar {
  import opened Text
  import opened Input
  import opened SmtpWire

  // ------------------------------------------------------------------
  // Trimming
  // ------------------------------------------------------------------

  predicate Blank(s: string) { forall i :: 0 <= i < |s| ==> IsAsciiSpace(s[i]) }

  predicate Trimmed(s: string) { s == [] || (!IsAsciiSpace(s[0]) && !IsAsciiSpace(s[|s| - 1])) }

  lemma {:induction false} TrimStartCuts(s: string) returns (a: string)
    ensures s == a + TrimStart(s) && Blank(a)
  {
    if s != [] && IsAsciiSpace(s[0]) {
      var more := TrimStartCuts(s[1..]);
      a := [s[0]] + more;
      assert s == [s[0]] + s[1..];
    } else {
      a := [];
    }
  }

  lemma {:induction false} TrimEndCuts(s: string) returns (b: string)
    ensures s == TrimEnd(s) + b && Blank(b)
  {
    if s != [] && IsAsciiSpace(s[|s| - 1]) {
      var more := TrimEndCuts(s[..|s| - 1]);
      b := more + [s[|s| - 1]];
      assert s == s[..|s| - 1] + [s[|s| - 1]];
    } else {
      b := [];
    }
  }

  /** Trimming takes off the blanks at both ends, and only those. */
  lemma {:induction false} TrimCuts(s: string) returns (a: string, b: string)
    ensures s == a + Trim(s) + b && Blank(a) && Blank(b) && Trimmed(Trim(s))
  {
    b := TrimEndCuts(s);
    a := TrimStartCuts(TrimEnd(s));
    assert TrimEnd(s) == a + Trim(s);
    assert Trim(s) != [] ==> Trim(s)[|Trim(s)| - 1] == TrimEnd(s)[|TrimEnd(s)| - 1];
  }

  lemma {:induction false} SkipsBlanks(a: string, s: string)
    requires Blank(a) && (s == [] || !IsAsciiSpace(s[0]))
    ensures TrimStart(a + s) == s
  {
    if a == [] {
      assert a + s == s;
    } else {
      assert (a + s)[0] == a[0] && (a + s)[1..] == a[1..] + s;
      SkipsBlanks(a[1..], s);
    }
  }

  // ------------------------------------------------------------------
  // Command lines
  // ------------------------------------------------------------------

  predicate LineEnd(s: string) { forall i :: 0 <= i < |s| ==> s[i] == '\r' || s[i] == '\n' }

  /** A command line: a verb without blanks, perhaps an argument after the first blank,
      with more blanks around it, and the line's end. */
  ghost predicate Written(text: string, verb: string, arg: string) {
    exists line, end :: EndsLine(text, line, end) && OnLine(line, verb, arg)
  }

  ghost predicate EndsLine(text: string, line: string, end: string) {
    text == line + end && LineEnd(end) && (line == [] || !LineEnd([line[|line| - 1]]))
  }

  ghost predicate OnLine(line: string, verb: string, arg: string) {
    && ' ' !in verb
    && if ' ' !in line then line == verb && arg == ""
       else exists more, a, b :: line == verb + ([' '] + more) && Argument(more, a, arg, b)
  }

  predicate Argument(more: string, a: string, arg: string, b: string) {
    more == a + arg + b && Blank(a) && Blank(b) && Trimmed(arg)
  }

  lemma {:induction false} LineEndCuts(s: string) returns (end: string)
    ensures s == TrimLineEnd(s) + end && LineEnd(end)
    ensures TrimLineEnd(s) == [] || !LineEnd([TrimLineEnd(s)[|TrimLineEnd(s)| - 1]])
  {
    if s != [] && (s[|s| - 1] == '\r' || s[|s| - 1] == '\n') {
      var more := LineEndCuts(s[..|s| - 1]);
      end := more + [s[|s| - 1]];
      assert s == s[..|s| - 1] + [s[|s| - 1]];
    } else {
      end := [];
      assert s != [] ==> !LineEnd([s[|s| - 1]]) by { assert s != [] ==> [s[|s| - 1]][0] == s[|s| - 1]; }
    }
  }

  /** Every line is a verb and an argument written so. */
  lemma {:induction false} CommandWritten(text: string)
    ensures Written(text, SplitCommand(TrimLineEnd(text)).0, SplitCommand(TrimLineEnd(text)).1)
  {
    var line := TrimLineEnd(text);
    var end := LineEndCuts(text);
    LineWritten(line);
    assert EndsLine(text, line, end);
  }

  lemma {:induction false} LineWritten(line: string)
    ensures OnLine(line, SplitCommand(line).0, SplitCommand(line).1)
  {
    var k := IndexOf(line, ' ');
    if k < |line| {
      var verb, more := line[..k], line[k + 1..];
      var a, b := TrimCuts(more);
      assert Argument(more, a, Trim(more), b);
      FirstBlank(line, k, verb, more);
    }
  }

  lemma {:induction false} FirstBlank(line: string, k: nat, verb: string, more: string)
    requires k < |line| && line[k] == ' ' && (forall i :: 0 <= i < k ==> line[i] != ' ') && verb == line[..k] && more == line[k + 1..]
    ensures line == verb + ([' '] + more) && ' ' in line && ' ' !in verb
  {
    assert line[k] in line;
  }

  /** The verb is this word, in any case. */
  predicate VerbIs(text: string, word: string) { Upper(SplitCommand(TrimLineEnd(text)).0) == word }

  predicate Capital(s: string) { forall i :: 0 <= i < |s| ==> IsUpper(s[i]) }

  lemma {:induction false} SameInAnyCase(s: string, word: string)
    requires Capital(word)
    ensures Upper(s) == word <==> EqIgnoreCase(s, word)
  {
    if s == [] || word == [] {
      assert |Lower(s)| == |s| && |Lower(word)| == |word|;
      assert s != [] ==> Upper(s) != [];
    } else {
      SameInAnyCase(s[1..], word[1..]);
      assert Upper(s) == [UpperChar(s[0])] + Upper(s[1..]);
      assert word == [word[0]] + word[1..];
      LowerFirst(s);
      LowerFirst(word);
    }
  }

  lemma {:induction false} LowerFirst(s: string)
    requires s != []
    ensures Lower(s) == [LowerChar(s[0])] + Lower(s[1..])
  {
  }

  // Each command is read exactly from its verb, and carries the argument.

  lemma {:induction false} HeloRead(text: string)
    ensures ParseCommand(text) == Helo(SplitCommand(TrimLineEnd(text)).1) <==> VerbIs(text, "EHLO") || VerbIs(text, "HELO")
  {
  }

  lemma {:induction false} TlsRead(text: string)
    ensures ParseCommand(text) == Tls(SplitCommand(TrimLineEnd(text)).1) <==> VerbIs(text, "STARTTLS")
  {
  }

  lemma {:induction false} AuthRead(text: string)
    ensures ParseCommand(text) == Auth(SplitCommand(TrimLineEnd(text)).1) <==> VerbIs(text, "AUTH")
  {
  }

  lemma {:induction false} MailRead(text: string)
    ensures ParseCommand(text) == MailFrom(SplitCommand(TrimLineEnd(text)).1) <==> VerbIs(text, "MAIL")
  {
  }

  lemma {:induction false} RcptRead(text: string)
    ensures ParseCommand(text) == RcptTo(SplitCommand(TrimLineEnd(text)).1) <==> VerbIs(text, "RCPT")
  {
  }

  lemma {:induction false} DataRead(text: string)
    ensures ParseCommand(text).DataFollows? <==> VerbIs(text, "DATA")
  {
  }

  lemma {:induction false} RsetRead(text: string)
    ensures ParseCommand(text).Rset? <==> VerbIs(text, "RSET")
  {
  }

  lemma {:induction false} NoopRead(text: string)
    ensures ParseCommand(text).Noop? <==> VerbIs(text, "NOOP")
  {
  }

  lemma {:induction false} QuitRead(text: string)
    ensures ParseCommand(text).Quit? <==> VerbIs(text, "QUIT")
  {
  }

  // ------------------------------------------------------------------
  // Address parameters
  // ------------------------------------------------------------------

  /** The prefix in any case, perhaps blanks, and the address in angle brackets. */
  ghost predicate Parameter(arg: string, prefix: string, addr: string) {
    exists p, blank, rest :: IsParameter(arg, p, blank, addr, rest) && EqIgnoreCase(p, prefix)
  }

  predicate IsParameter(arg: string, p: string, blank: string, addr: string, rest: string) {
    arg == p + (blank + (['<'] + (addr + (['>'] + rest)))) && Blank(blank) && '>' !in addr
  }

  lemma {:induction false} SameLength(p: string, prefix: string)
    requires EqIgnoreCase(p, prefix)
    ensures |p| == |prefix|
  {
    assert |Lower(p)| == |p| && |Lower(prefix)| == |prefix|;
  }

  /** What is in angle brackets. */
  lemma {:induction false} Bracketed(inner: string, addr: string, rest: string)
    requires inner == addr + (['>'] + rest) && '>' !in addr
    ensures IndexOf(inner, '>') == |addr| < |inner| && inner[..|addr|] == addr
  {
    assert inner == addr + ['>'] + rest;
    IndexAfter(addr, '>', rest);
  }

  lemma {:induction false} ParameterReads(arg: string, prefix: string, p: string, blank: string, addr: string, rest: string)
    requires IsParameter(Trim(arg), p, blank, addr, rest) && EqIgnoreCase(p, prefix)
    ensures ParseAddrParam(arg, prefix) == Some(addr)
  {
    SameLength(p, prefix);
    var inner := addr + (['>'] + rest);
    var after := ['<'] + inner;
    assert Trim(arg)[..|prefix|] == p && Trim(arg)[|prefix|..] == blank + after;
    SkipsBlanks(blank, after);
    Bracketed(inner, addr, rest);
    assert after[1..] == inner;
  }

  lemma {:induction false} ReadsParameter(arg: string, prefix: string)
    requires ParseAddrParam(arg, prefix).Some?
    ensures Parameter(Trim(arg), prefix, ParseAddrParam(arg, prefix).value)
  {
    var text := Trim(arg);
    var after := TrimStart(text[|prefix|..]);
    Framed(text, prefix, after, IndexOf(after[1..], '>'));
  }

  lemma {:induction false} Framed(text: string, prefix: string, after: string, k: nat)
    requires |prefix| <= |text| && EqIgnoreCase(text[..|prefix|], prefix) && after == TrimStart(text[|prefix|..])
    requires after != [] && after[0] == '<' && k == IndexOf(after[1..], '>') < |after[1..]|
    ensures Parameter(text, prefix, after[1..][..k])
  {
    var p, tail, inner := text[..|prefix|], text[|prefix|..], after[1..];
    var addr, rest := inner[..k], inner[k + 1..];
    CutAt(text, |prefix|);
    CutAt(after, 1);
    Brackets(inner, k);
    var blank := TrimStartCuts(tail);
    Assembled(text, p, tail, blank, after, inner, addr, rest);
  }

  lemma {:induction false} CutAt(s: string, n: nat)
    requires n <= |s|
    ensures s == s[..n] + s[n..] && (n == 1 ==> s[..n] == [s[0]])
  {
  }

  lemma {:induction false} Brackets(inner: string, k: nat)
    requires k < |inner| && inner[k] == '>' && forall i :: 0 <= i < k ==> inner[i] != '>'
    ensures inner == inner[..k] + (['>'] + inner[k + 1..]) && '>' !in inner[..k]
  {
  }

  lemma {:induction false} Assembled(text: string, p: string, tail: string, blank: string, after: string, inner: string, addr: string, rest: string)
    requires text == p + tail && tail == blank + after && after == ['<'] + inner && inner == addr + (['>'] + rest)
    requires Blank(blank) && '>' !in addr
    ensures IsParameter(text, p, blank, addr, rest)
  {
  }

  /** A parameter is read exactly if it is written so, and then the address is what is in
      the brackets. */
  lemma {:induction false} ParameterExactly(arg: string, prefix: string, addr: string)
    ensures ParseAddrParam(arg, prefix) == Some(addr) <==> Parameter(Trim(arg), prefix, addr)
  {
    if Parameter(Trim(arg), prefix, addr) {
      var p, blank, rest :| IsParameter(Trim(arg), p, blank, addr, rest) && EqIgnoreCase(p, prefix);
      ParameterReads(arg, prefix, p, blank, addr, rest);
    }
    if ParseAddrParam(arg, prefix) == Some(addr) { ReadsParameter(arg, prefix); }
  }
}
