/** The threading key of a subject: `normalize_subject`
    (crates/store/src/threads.rs). Slicing a string inside a character panics, which
    the model shows as None. */
module Subject {
  import opened Text
  import opened Input

  function SkipBlank(s: string): (r: string)
    ensures |r| <= |s| && (r == [] || !IsWhitespace(r[0]))
  {
    if s != [] && IsWhitespace(s[0]) then SkipBlank(s[1..]) else s
  }

  function DropBlank(s: string): (r: string)
    ensures |r| <= |s| && (r == [] || !IsWhitespace(r[|r| - 1]))
  {
    if s != [] && IsWhitespace(s[|s| - 1]) then DropBlank(s[..|s| - 1]) else s
  }

  lemma {:induction false} SkipIsSuffix(s: string)
    ensures SkipBlank(s) == s[|s| - |SkipBlank(s)|..]
  {
    if s == [] || !IsWhitespace(s[0]) {
    } else {
      SkipIsSuffix(s[1..]);
    }
  }

  lemma {:induction false} DropIsPrefix(s: string)
    ensures DropBlank(s) == s[..|DropBlank(s)|]
  {
    if s == [] || !IsWhitespace(s[|s| - 1]) {
    } else {
      DropIsPrefix(s[..|s| - 1]);
    }
  }

  /** `str::trim`. */
  function Trimmed(s: string): string { SkipBlank(DropBlank(s)) }

  /** The first n bytes exist but end inside a character. */
  predicate Straddles(s: string, n: nat) {
    Utf8Len(s) >= n && forall k :: 0 <= k <= |s| ==> Utf8Len(s[..k]) != n
  }

  predicate HasPrefix(s: string, prefix: string) { |s| >= |prefix| && EqIgnoreCase(s[..|prefix|], prefix) }

  datatype Step = Panic | Rest(rest: string) | NoPrefix

  /** One round of the loop, on text that starts with no blank. */
  function Strip(s: string): (r: Step)
    ensures r.Rest? ==> |r.rest| < |s|
  {
    if Straddles(s, 3) then Panic
    else if HasPrefix(s, "re:") then Rest(SkipBlank(s[3..]))
    else if Straddles(s, 4) then Panic
    else if HasPrefix(s, "fwd:") then Rest(SkipBlank(s[4..]))
    else if HasPrefix(s, "fw:") then Rest(SkipBlank(s[3..]))
    else NoPrefix
  }

  /** What is left when no prefix is. */
  function Core(s: string): Option<string>
    decreases |s|
  {
    match Strip(s)
    case Panic => None
    case Rest(rest) => Core(rest)
    case NoPrefix => Some(s)
  }

  function Key(subject: string, lowercase: string -> string): Option<string> {
    var c := Core(Trimmed(subject));
    if c.None? then None else Some(lowercase(c.value))
  }

  /** One search through the prefixes. */
  method FindPrefix(s: string) returns (r: Step)
    ensures r.Panic? ==> Core(s) == None
    ensures r.NoPrefix? ==> Core(s) == Some(s)
    ensures r.Rest? ==> Core(s) == Core(r.rest) && |r.rest| < |s| && Utf8Len(r.rest) < Utf8Len(s)
    ensures r.Rest? && r.rest != [] ==> !IsWhitespace(r.rest[0])
  {
    r := Strip(s);
    StrippedIsShorter(s);
  }

  /** The loop ends, also with its test that the text became shorter. The key is what is
      left of the subject without blanks around it and prefixes in front, in lower case. */
  method NormalizeSubject(subject: string, lowercase: string -> string) returns (r: Option<string>)
    ensures r == Key(subject, lowercase)
    ensures r.Some? ==> exists before, stack, t, after :: Peels(subject, before, stack, t, after) && r == Some(lowercase(t))
    ensures r.None? <==> exists stack, t :: CutAfter(subject, stack, t)
  {
    PanicsExactly(subject, lowercase);
    if Key(subject, lowercase).Some? {
      var before, stack, t, after := KeyPeels(subject, lowercase);
    }
    var s := Trimmed(subject);
    while true
      invariant s == [] || !IsWhitespace(s[0])
      invariant Core(s) == Core(Trimmed(subject))
      decreases |s|
    {
      var lower := SkipBlank(s);
      var stripped := FindPrefix(lower);
      if stripped.Panic? { return None; }
      if stripped.NoPrefix? { break; }
      if Utf8Len(stripped.rest) == Utf8Len(s) { break; }
      s := stripped.rest;
    }
    r := Some(lowercase(s));
  }

  lemma {:induction false} SuffixBytes(s: string, k: nat)
    requires k <= |s|
    ensures Utf8Len(s[k..]) + k <= Utf8Len(s)
  {
    if k > 0 {
      SuffixBytes(s[1..], k - 1);
      assert s[1..][k - 1..] == s[k..];
    } else {
      assert s[0..] == s;
    }
  }

  lemma {:induction false} RestIsSuffix(s: string)
    ensures Strip(s).Rest? ==> Strip(s).rest == s[|s| - |Strip(s).rest|..]
  {
    if |s| >= 3 { SkipAfter(s, 3); }
    if |s| >= 4 { SkipAfter(s, 4); }
  }

  lemma {:induction false} SkipAfter(s: string, n: nat)
    requires n <= |s|
    ensures SkipBlank(s[n..]) == s[|s| - |SkipBlank(s[n..])|..]
  {
    SkipIsSuffix(s[n..]);
  }

  lemma {:induction false} StrippedIsShorter(s: string)
    ensures Strip(s).Rest? ==> Utf8Len(Strip(s).rest) < Utf8Len(s)
  {
    var r := Strip(s);
    if r.Rest? {
      RestIsSuffix(s);
      SuffixBytes(s, |s| - |r.rest|);
    }
  }

  // ------------------------------------------------------------------
  // ASCII subjects
  // ------------------------------------------------------------------

  lemma {:induction false} AsciiSlices(s: string, n: nat)
    requires IsAscii(s)
    ensures !Straddles(s, n)
  {
    AsciiBytes(s);
    if n <= |s| { AsciiBytes(s[..n]); }
  }

  lemma {:induction false} AsciiHasCore(s: string)
    requires IsAscii(s)
    ensures Core(s).Some? && IsAscii(Core(s).value)
    decreases |s|
  {
    AsciiSlices(s, 3);
    AsciiSlices(s, 4);
    if !Strip(s).Rest? {
    } else {
      RestIsSuffix(s);
      AsciiHasCore(Strip(s).rest);
    }
  }

  /** Two characters of two bytes are enough. */
  lemma {:induction false} SomeSubjectsPanic(lowercase: string -> string)
    ensures Key("\U{E9}\U{E9}", lowercase).None?
  {
    var s := "\U{E9}\U{E9}";
    assert Trimmed(s) == s;
    assert s[..0] == [] && s[..1] == "\U{E9}" && s[..2] == s;
    assert s[1..] == "\U{E9}" && s[1..][1..] == [] && "\U{E9}"[1..] == [];
    assert Utf8Len("\U{E9}") == 2 && Utf8Len(s) == 4;
  }

  // ------------------------------------------------------------------
  // Stacks of prefixes
  // ------------------------------------------------------------------

  predicate Blank(w: string) { forall i :: 0 <= i < |w| ==> IsWhitespace(w[i]) }

  predicate IsPrefix(p: string) { Lower(p) == "re:" || Lower(p) == "fwd:" || Lower(p) == "fw:" }

  lemma {:induction false} SkipBlankOver(w: string, s: string)
    requires Blank(w)
    ensures SkipBlank(w + s) == SkipBlank(s)
  {
    if w == [] {
      assert w + s == s;
    } else {
      assert (w + s)[1..] == w[1..] + s;
      SkipBlankOver(w[1..], s);
    }
  }

  lemma {:induction false} DropBlankOver(s: string, t: string)
    ensures DropBlank(t) != [] ==> DropBlank(s + t) == s + DropBlank(t)
    ensures DropBlank(t) == [] ==> DropBlank(s + t) == DropBlank(s)
  {
    if t == [] {
      assert s + t == s;
    } else if IsWhitespace(t[|t| - 1]) {
      assert (s + t)[..|s + t| - 1] == s + t[..|t| - 1];
      DropBlankOver(s, t[..|t| - 1]);
    }
  }

  lemma {:induction false} Prefixed(p: string, s: string, q: string)
    ensures Lower(p) == q ==> HasPrefix(p + s, q) && (p + s)[|q|..] == s
    ensures |p| >= 3 && Lower(p)[0] == 'f' ==> !HasPrefix(p + s, "re:")
    ensures |p| == 3 && Lower(p)[2] == ':' ==> !HasPrefix(p + s, "fwd:")
  {
    var t := p + s;
    if Lower(p) == q { assert t[..|q|] == p && Lower(q) == q by { LowerTwice(p); } }
    if |p| >= 3 { assert Lower(t[..3])[0] == LowerChar(p[0]) && Lower("re:")[0] == 'r'; }
    if |p| == 3 && |t| >= 4 { assert Lower(t[..4])[2] == LowerChar(p[2]) && Lower("fwd:")[2] == 'd'; }
  }

  /** A prefix in any ASCII case is found, unless slicing panics. */
  lemma {:induction false} StripPrefix(p: string, s: string)
    requires IsPrefix(p)
    ensures Strip(p + s) == Rest(SkipBlank(s)) || Strip(p + s) == Panic
  {
    Prefixed(p, s, Lower(p));
  }

  lemma {:induction false} PrefixEnds(p: string)
    requires IsPrefix(p)
    ensures |p| >= 3 && p[|p| - 1] == ':' && !IsWhitespace(p[0])
  {
    assert Lower(p)[|p| - 1] == LowerChar(p[|p| - 1]) == ':';
    assert Lower(p)[0] == LowerChar(p[0]);
  }

  lemma {:induction false} DropAfter(lead: string, body: string)
    requires lead != [] && !IsWhitespace(lead[|lead| - 1])
    ensures DropBlank(lead + body) == lead + DropBlank(body)
  {
    DropBlankOver(lead, body);
  }

  lemma {:induction false} SkipBefore(before: string, p: string, tail: string)
    requires Blank(before) && p != [] && !IsWhitespace(p[0])
    ensures SkipBlank(before + p + tail) == p + tail
  {
    assert before + p + tail == before + (p + tail);
    SkipBlankOver(before, p + tail);
  }

  lemma {:induction false} TrimToPrefix(before: string, p: string, body: string)
    requires Blank(before) && p != [] && !IsWhitespace(p[0]) && !IsWhitespace(p[|p| - 1])
    ensures Trimmed(before + p + body) == p + DropBlank(body)
  {
    DropAfter(before + p, body);
    SkipBefore(before, p, DropBlank(body));
  }

  lemma {:induction false} TrimPastBlank(after: string, s: string)
    requires Blank(after)
    ensures SkipBlank(DropBlank(after + s)) == Trimmed(s)
  {
    DropBlankOver(after, s);
    SkipBlankOver(after, DropBlank(s));
    BlankDrops(after);
  }

  /** One prefix, in any case and spacing, does not change what is left. */
  lemma {:induction false} PrefixVanishes(before: string, p: string, after: string, s: string)
    requires Blank(before) && IsPrefix(p) && Blank(after)
    ensures Core(Trimmed(before + p + (after + s))).None? || Core(Trimmed(before + p + (after + s))) == Core(Trimmed(s))
  {
    PrefixEnds(p);
    TrimToPrefix(before, p, after + s);
    StripPrefix(p, DropBlank(after + s));
    TrimPastBlank(after, s);
  }

  lemma {:induction false} BlankDrops(w: string)
    requires Blank(w)
    ensures DropBlank(w) == []
  {
    if w == [] {
    } else {
      BlankDrops(w[..|w| - 1]);
    }
  }

  /** A prefix with the blanks around it. */
  datatype Reply = Reply(before: string, prefix: string, after: string) {
    predicate Ok() { Blank(before) && IsPrefix(prefix) && Blank(after) }
    function On(s: string): string { before + prefix + (after + s) }
  }

  ghost predicate WellFormed(stack: seq<Reply>) { forall i :: 0 <= i < |stack| ==> stack[i].Ok() }

  function Stacked(stack: seq<Reply>, s: string): string {
    if stack == [] then s else stack[0].On(Stacked(stack[1..], s))
  }

  lemma {:induction false} AsciiTrimmed(s: string)
    requires IsAscii(s)
    ensures IsAscii(Trimmed(s)) && Core(Trimmed(s)).Some? && IsAscii(Core(Trimmed(s)).value)
  {
    DropIsPrefix(s);
    SkipIsSuffix(DropBlank(s));
    AsciiHasCore(Trimmed(s));
  }

  /** Every stack of prefixes on every subject panics or has the key of the bare
      subject; in ASCII it does not panic. */
  lemma {:induction false} StackHasBareKey(stack: seq<Reply>, s: string, lowercase: string -> string)
    requires WellFormed(stack)
    ensures Key(Stacked(stack, s), lowercase).None? || Key(Stacked(stack, s), lowercase) == Key(s, lowercase)
    ensures IsAscii(Stacked(stack, s)) ==> Key(Stacked(stack, s), lowercase).Some?
  {
    if IsAscii(Stacked(stack, s)) {
      AsciiTrimmed(Stacked(stack, s));
    }
    if stack == [] {
    } else {
      var r := stack[0];
      StackHasBareKey(stack[1..], s, lowercase);
      PrefixVanishes(r.before, r.prefix, r.after, Stacked(stack[1..], s));
    }
  }

  // ------------------------------------------------------------------
  // When slicing panics
  // ------------------------------------------------------------------

  /** The widths of the first characters add up past n without adding up to n. */
  predicate Skips(s: string, n: nat) {
    n > 0 && s != [] && (Utf8Width(s[0]) > n || (Utf8Width(s[0]) < n && Skips(s[1..], n - Utf8Width(s[0]))))
  }

  lemma {:induction false} StraddlesIsSkips(s: string, n: nat)
    ensures Straddles(s, n) <==> Skips(s, n)
  {
    assert Utf8Len(s[..0]) == 0;
    if n == 0 || s == [] {
    } else {
      var w := Utf8Width(s[0]);
      forall k | 1 <= k <= |s| ensures Utf8Len(s[..k]) == w + Utf8Len(s[1..][..k - 1]) {
        assert s[..k][1..] == s[1..][..k - 1];
      }
      if w == n {
        assert Utf8Len(s[1..][..0]) == 0;
        assert Utf8Len(s[..1]) == n;
      } else if w < n {
        StraddlesIsSkips(s[1..], n - w);
        TailStraddles(s, n);
      }
    }
  }

  lemma {:induction false} TailStraddles(s: string, n: nat)
    requires s != [] && Utf8Width(s[0]) < n
    requires forall k :: 1 <= k <= |s| ==> Utf8Len(s[..k]) == Utf8Width(s[0]) + Utf8Len(s[1..][..k - 1])
    ensures Straddles(s, n) <==> Straddles(s[1..], n - Utf8Width(s[0]))
  {
    var rest, m := s[1..], n - Utf8Width(s[0]);
    if Straddles(s, n) {
      forall k | 0 <= k <= |rest| ensures Utf8Len(rest[..k]) != m { assert Utf8Len(s[..k + 1]) != n; }
    }
    if Straddles(rest, m) {
      assert Utf8Len(s[..0]) == 0;
      forall k | 0 <= k <= |s| ensures Utf8Len(s[..k]) != n { if k > 0 { assert Utf8Len(rest[..k - 1]) != m; } }
    }
  }

  /** A character of this text lies across byte 3, or, unless the text starts with
      "re:", across byte 4. */
  predicate CutsCharacter(t: string) {
    t != [] && !IsWhitespace(t[0]) && (Skips(t, 3) || (!HasPrefix(t, "re:") && Skips(t, 4)))
  }

  lemma {:induction false} CutIsPanic(t: string)
    requires t == [] || !IsWhitespace(t[0])
    ensures Strip(t).Panic? <==> CutsCharacter(t)
  {
    StraddlesIsSkips(t, 3);
    StraddlesIsSkips(t, 4);
  }

  lemma {:induction false} StackReachesCut(stack: seq<Reply>, t: string)
    requires WellFormed(stack) && CutsCharacter(t)
    ensures Core(SkipBlank(Stacked(stack, t))).None?
  {
    if stack == [] {
      CutIsPanic(t);
    } else {
      var r, s := stack[0], Stacked(stack[1..], t);
      StackReachesCut(stack[1..], t);
      PrefixEnds(r.prefix);
      SkipBefore(r.before, r.prefix, r.after + s);
      StripPrefix(r.prefix, r.after + s);
      SkipBlankOver(r.after, s);
    }
  }

  /** A prefix in its own case and the blanks after it. */
  lemma {:induction false} ReplyAt(s: string, q: string) returns (r: Reply)
    requires HasPrefix(s, q) && Lower(q) == q && IsPrefix(q)
    ensures r.Ok() && s == r.On(SkipBlank(s[|q|..]))
  {
    var after := s[|q|..];
    var blanks := Blanks(after);
    r := Reply([], s[..|q|], blanks);
    assert [] + s[..|q|] == s[..|q|];
    assert s == s[..|q|] + after;
  }

  /** The blanks a text starts with. */
  lemma {:induction false} Blanks(s: string) returns (blanks: string)
    ensures Blank(blanks) && s == blanks + SkipBlank(s)
  {
    SkipIsSuffix(s);
    SkippedIsBlank(s);
    blanks := s[..|s| - |SkipBlank(s)|];
  }

  lemma {:induction false} StrippedReply(s: string) returns (r: Reply)
    requires Strip(s).Rest?
    ensures r.Ok() && s == r.On(Strip(s).rest)
  {
    if HasPrefix(s, "re:") {
      r := ReplyAt(s, "re:");
    } else if HasPrefix(s, "fwd:") {
      r := ReplyAt(s, "fwd:");
    } else {
      r := ReplyAt(s, "fw:");
    }
  }

  lemma {:induction false} SkippedIsBlank(s: string)
    ensures Blank(s[..|s| - |SkipBlank(s)|])
  {
    if s == [] || !IsWhitespace(s[0]) {
    } else {
      SkippedIsBlank(s[1..]);
      var w := s[..|s| - |SkipBlank(s)|];
      assert w == [s[0]] + s[1..][..|s[1..]| - |SkipBlank(s[1..])|];
    }
  }

  lemma {:induction false} PanicHasStack(s: string) returns (stack: seq<Reply>, t: string)
    requires (s == [] || !IsWhitespace(s[0])) && Core(s).None?
    ensures WellFormed(stack) && s == Stacked(stack, t) && CutsCharacter(t)
    decreases |s|
  {
    if Strip(s).Panic? {
      CutIsPanic(s);
      stack, t := [], s;
    } else {
      var r := StrippedReply(s);
      stack, t := PanicHasStack(Strip(s).rest);
      assert ([r] + stack)[1..] == stack;
      stack := [r] + stack;
    }
  }

  /** The trimmed subject is a stack of prefixes on a text that cuts a character. */
  ghost predicate CutAfter(subject: string, stack: seq<Reply>, t: string) {
    WellFormed(stack) && Trimmed(subject) == Stacked(stack, t) && CutsCharacter(t)
  }

  /** Normalizing panics exactly if the trimmed subject is any number of prefixes, in
      any case and spacing, followed by a text in which a character lies across byte 3,
      or across byte 4 when it does not start with "re:". */
  lemma {:induction false} PanicsExactly(subject: string, lowercase: string -> string)
    ensures Key(subject, lowercase).None? <==> exists stack, t :: CutAfter(subject, stack, t)
  {
    TrimmedEnds(subject);
    if Key(subject, lowercase).None? {
      var stack, t := PanicHasStack(Trimmed(subject));
      assert CutAfter(subject, stack, t);
    }
    if stack, t :| CutAfter(subject, stack, t) {
      StackReachesCut(stack, t);
      assert SkipBlank(Trimmed(subject)) == Trimmed(subject);
    }
  }

  // ------------------------------------------------------------------
  // Idempotence
  // ------------------------------------------------------------------

  /** What a core looks like: no blank around it and no prefix before it. */
  predicate Bare(s: string) {
    && Strip(s).NoPrefix?
    && (s == [] || (!IsWhitespace(s[0]) && !IsWhitespace(s[|s| - 1])))
  }

  lemma {:induction false} CoreIsBare(s: string)
    requires s == [] || (!IsWhitespace(s[0]) && !IsWhitespace(s[|s| - 1]))
    ensures Core(s).Some? ==> Bare(Core(s).value)
    decreases |s|
  {
    if !Strip(s).Rest? {
    } else {
      RestIsSuffix(s);
      CoreIsBare(Strip(s).rest);
    }
  }

  lemma {:induction false} BareIsFixed(s: string)
    requires Bare(s)
    ensures Core(Trimmed(s)) == Some(s)
  {
  }

  lemma {:induction false} LowerOfPrefix(s: string, k: nat)
    requires k <= |s|
    ensures Lower(s)[..k] == Lower(s[..k])
  {
  }

  lemma {:induction false} LowerTwice(s: string)
    ensures Lower(Lower(s)) == Lower(s)
  {
    assert forall i :: 0 <= i < |s| ==> Lower(Lower(s))[i] == LowerChar(LowerChar(s[i])) == LowerChar(s[i]);
  }

  lemma {:induction false} LowerHasPrefix(s: string, p: string)
    ensures HasPrefix(Lower(s), p) == HasPrefix(s, p)
  {
    if |s| >= |p| {
      LowerOfPrefix(s, |p|);
      LowerTwice(s[..|p|]);
    }
  }

  lemma {:induction false} LowerIsBare(s: string)
    requires IsAscii(s) && Bare(s)
    ensures Bare(Lower(s)) && IsAscii(Lower(s))
  {
    AsciiSlices(Lower(s), 3);
    AsciiSlices(Lower(s), 4);
    LowerHasPrefix(s, "re:");
    LowerHasPrefix(s, "fwd:");
    LowerHasPrefix(s, "fw:");
  }

  lemma {:induction false} TrimmedEnds(s: string)
    ensures var t := Trimmed(s); t == [] || (!IsWhitespace(t[0]) && !IsWhitespace(t[|t| - 1]))
  {
    SkipIsSuffix(DropBlank(s));
  }

  /** `str::to_lowercase` lowers ASCII letters and leaves other ASCII text alone. */
  ghost predicate LowersAscii(lowercase: string -> string) { forall s :: IsAscii(s) ==> lowercase(s) == Lower(s) }

  lemma {:induction false} CoreOfLower(c: string)
    requires IsAscii(c) && Bare(c)
    ensures Core(Trimmed(Lower(c))) == Some(Lower(c)) && IsAscii(Lower(c))
  {
    LowerIsBare(c);
    BareIsFixed(Lower(c));
  }

  /** Normalizing an ASCII subject twice is normalizing it once. */
  lemma {:induction false} Idempotent(subject: string, lowercase: string -> string)
    requires IsAscii(subject) && LowersAscii(lowercase)
    ensures Key(subject, lowercase).Some?
    ensures Key(Key(subject, lowercase).value, lowercase) == Key(subject, lowercase)
  {
    AsciiTrimmed(subject);
    TrimmedEnds(subject);
    CoreIsBare(Trimmed(subject));
    var c := Core(Trimmed(subject)).value;
    CoreOfLower(c);
    LowerTwice(c);
  }

  // ------------------------------------------------------------------
  // What the key is
  // ------------------------------------------------------------------

  /** A text with no blank at either end, no prefix in front and no character across byte
      3 or 4. */
  ghost predicate Plain(t: string) {
    && (t == [] || (!IsWhitespace(t[0]) && !IsWhitespace(t[|t| - 1])))
    && (forall p, rest :: t == p + rest ==> Lower(p) != "re:" && Lower(p) != "fwd:" && Lower(p) != "fw:")
    && !Skips(t, 3) && !Skips(t, 4)
  }

  lemma {:induction false} PrefixExactly(t: string, q: string)
    requires Lower(q) == q
    ensures HasPrefix(t, q) <==> exists p, rest :: t == p + rest && Lower(p) == q
  {
    if HasPrefix(t, q) { assert t == t[..|q|] + t[|q|..]; }
    forall p, rest | t == p + rest && Lower(p) == q ensures HasPrefix(t, q) {
      assert |Lower(p)| == |p| && t[..|q|] == p;
    }
  }

  lemma {:induction false} PrefixesAreLower()
    ensures Lower("re:") == "re:" && Lower("fwd:") == "fwd:" && Lower("fw:") == "fw:"
  {
  }

  lemma {:induction false} PlainIsBare(t: string)
    ensures Plain(t) <==> Bare(t)
  {
    PrefixesAreLower();
    PrefixExactly(t, "re:");
    PrefixExactly(t, "fwd:");
    PrefixExactly(t, "fw:");
    StraddlesIsSkips(t, 3);
    StraddlesIsSkips(t, 4);
  }

  /** A plain subject is its own key, in lower case. */
  lemma {:induction false} PlainKey(t: string, lowercase: string -> string)
    requires Plain(t)
    ensures Key(t, lowercase) == Some(lowercase(t))
  {
    PlainIsBare(t);
    BareIsFixed(t);
  }

  lemma {:induction false} TrimAround(before: string, s: string, after: string)
    requires Blank(before) && Blank(after)
    ensures Trimmed(before + s + after) == Trimmed(s)
  {
    BlankDrops(after);
    DropBlankOver(before + s, after);
    TrimPastBlank(before, s);
  }

  /** Every stack of prefixes on a plain subject, with blanks around it, panics or has that
      subject's key. */
  lemma {:induction false} StackOnPlain(before: string, stack: seq<Reply>, t: string, after: string, lowercase: string -> string)
    requires Blank(before) && WellFormed(stack) && Plain(t) && Blank(after)
    ensures var key := Key(before + Stacked(stack, t) + after, lowercase); key.None? || key == Some(lowercase(t))
  {
    TrimAround(before, Stacked(stack, t), after);
    StackHasBareKey(stack, t, lowercase);
    PlainKey(t, lowercase);
  }

  /** The subject is prefixes on a plain text, with blanks around it. */
  ghost predicate Peels(subject: string, before: string, stack: seq<Reply>, t: string, after: string) {
    subject == before + Stacked(stack, t) + after && Blank(before) && WellFormed(stack) && Plain(t) && Blank(after)
  }

  lemma {:induction false} CoreHasStack(s: string) returns (stack: seq<Reply>)
    requires Core(s).Some?
    ensures WellFormed(stack) && s == Stacked(stack, Core(s).value)
    decreases |s|
  {
    if Strip(s).NoPrefix? {
      stack := [];
    } else {
      var r := StrippedReply(s);
      stack := CoreHasStack(Strip(s).rest);
      assert ([r] + stack)[1..] == stack;
      stack := [r] + stack;
    }
  }

  lemma {:induction false} TrimmedWithin(s: string) returns (before: string, after: string)
    ensures s == before + Trimmed(s) + after && Blank(before) && Blank(after)
  {
    after := Dropped(s);
    before := Blanks(DropBlank(s));
  }

  lemma {:induction false} Dropped(s: string) returns (after: string)
    ensures s == DropBlank(s) + after && Blank(after)
  {
    if s == [] || !IsWhitespace(s[|s| - 1]) {
      after := [];
    } else {
      var more := Dropped(s[..|s| - 1]);
      after := more + [s[|s| - 1]];
      assert s == s[..|s| - 1] + [s[|s| - 1]];
    }
  }

  /** Every key comes from such a text: the subject is prefixes, in any case and spacing, on
      a plain text, and the key is that text in lower case. */
  lemma {:induction false} KeyPeels(subject: string, lowercase: string -> string) returns (before: string, stack: seq<Reply>, t: string, after: string)
    requires Key(subject, lowercase).Some?
    ensures Peels(subject, before, stack, t, after) && Key(subject, lowercase) == Some(lowercase(t))
  {
    before, after := TrimmedWithin(subject);
    stack := CoreHasStack(Trimmed(subject));
    t := Core(Trimmed(subject)).value;
    TrimmedEnds(subject);
    CoreIsBare(Trimmed(subject));
    PlainIsBare(t);
  }

  /** Two plain ASCII subjects are one thread exactly if they differ in case only. */
  lemma {:induction false} SameKeyExactly(a: string, b: string, lowercase: string -> string)
    requires Plain(a) && Plain(b) && IsAscii(a) && IsAscii(b) && LowersAscii(lowercase)
    ensures Key(a, lowercase) == Key(b, lowercase) <==> EqIgnoreCase(a, b)
  {
    PlainKey(a, lowercase);
    PlainKey(b, lowercase);
  }
}
