/** Validation of strings that cross a mail protocol boundary
    (crates/common/src/input.rs). */
module Input {
  import opened Text

  /** Bytes of one character in UTF-8. */
  function Utf8Width(c: char): (w: nat)
    ensures 1 <= w <= 4 && (w == 1 <==> c as int < 128) && (w <= 2 <==> c as int < 2048) && (w <= 3 <==> c as int < 65536)
  {
    var n := c as int;
    if n < 0x80 then 1 else if n < 0x800 then 2 else if n < 0x10000 then 3 else 4
  }

  /** `str::len`. */
  function Utf8Len(s: string): nat {
    if s == [] then 0 else Utf8Width(s[0]) + Utf8Len(s[1..])
  }

  /** `char::is_control`: the Unicode category Cc. */
  predicate IsControl(c: char) {
    var n := c as int;
    n < 0x20 || 0x7F <= n < 0xA0
  }

  /** `char::is_whitespace`: the Unicode property White_Space. */
  predicate IsWhitespace(c: char) {
    var n := c as int;
    || 9 <= n <= 13 || n == 0x20 || n == 0x85 || n == 0xA0 || n == 0x1680
    || 0x2000 <= n <= 0x200A || n == 0x2028 || n == 0x2029 || n == 0x202F
    || n == 0x205F || n == 0x3000
  }

  predicate ValidHeaderValue(value: string) {
    forall i :: 0 <= i < |value| ==> !IsControl(value[i])
  }

  predicate IsAddressDelimiter(c: char) {
    c in "<>()[],;:\\\""
  }

  predicate IsAlphanumeric(c: char) {
    'a' <= c <= 'z' || 'A' <= c <= 'Z' || '0' <= c <= '9'
  }

  predicate ValidLabel(lab: string) {
    && lab != []
    && |lab| <= 63
    && lab[0] != '-'
    && lab[|lab| - 1] != '-'
    && forall i :: 0 <= i < |lab| ==> IsAlphanumeric(lab[i]) || lab[i] == '-'
  }

  predicate ValidDomainName(domain: string) {
    && domain != []
    && Utf8Len(domain) <= 253
    && ValidHeaderValue(domain)
    && (forall i :: 0 <= i < |domain| ==> domain[i] as int < 0x80)
    && forall k :: 0 <= k < |Split(domain, '.')| ==> ValidLabel(Split(domain, '.')[k])
  }

  predicate ValidLocal(local: string) {
    && local != []
    && local[0] != '.'
    && local[|local| - 1] != '.'
    && forall i :: 0 <= i < |local| - 1 ==> !(local[i] == '.' && local[i + 1] == '.')
  }

  predicate ValidEmailAddress(address: string) {
    && address != []
    && Utf8Len(address) <= 254
    && ValidHeaderValue(address)
    && (forall i :: 0 <= i < |address| ==>
          !IsWhitespace(address[i]) && !IsAddressDelimiter(address[i]))
    && var parts := Split(address, '@');
       |parts| == 2 && ValidLocal(parts[0]) && ValidDomainName(parts[1])
  }

  /** `rcpt.rsplit_once('@')`: the part after the last '@', or the whole text
      when there is none. */
  function AfterLastAt(s: string): (r: string)
    ensures '@' !in r
  {
    if '@' !in s then s else AfterLastAt(s[1..])
  }

  // ------------------------------------------------------------------
  // Validity does not depend on ASCII case.
  // ------------------------------------------------------------------

  lemma {:induction false} LowerKeepsUtf8Len(s: string)
    ensures Utf8Len(Lower(s)) == Utf8Len(s)
  {
    if s == [] {
    } else {
      LowerKeepsUtf8Len(s[1..]);
      assert Lower(s)[1..] == Lower(s[1..]);
    }
  }

  lemma {:induction false} LowerCons(c: char, s: string)
    ensures Lower([c] + s) == [LowerChar(c)] + Lower(s)
  {
    assert ([c] + s)[1..] == s;
  }

  lemma {:induction false} SplitOfLower(s: string, sep: char)
    requires LowerChar(sep) == sep && !('a' <= sep <= 'z')
    ensures |Split(Lower(s), sep)| == |Split(s, sep)|
    ensures forall k :: 0 <= k < |Split(s, sep)| ==> Split(Lower(s), sep)[k] == Lower(Split(s, sep)[k])
  {
    if s == [] {
    } else {
      var parts, lower := Split(s[1..], sep), Lower(s[1..]);
      SplitOfLower(s[1..], sep);
      assert Lower(s) == [LowerChar(s[0])] + lower && Lower(s)[1..] == lower;
      assert LowerChar(s[0]) == sep <==> s[0] == sep;
      LowerCons(s[0], parts[0]);
    }
  }

  lemma {:induction false} LowerKeepsChars(c: char)
    ensures IsControl(LowerChar(c)) == IsControl(c)
    ensures IsWhitespace(LowerChar(c)) == IsWhitespace(c)
    ensures IsAddressDelimiter(LowerChar(c)) == IsAddressDelimiter(c)
    ensures IsAlphanumeric(LowerChar(c)) == IsAlphanumeric(c)
    ensures (LowerChar(c) as int < 0x80) == (c as int < 0x80)
    ensures (LowerChar(c) == '-') == (c == '-') && (LowerChar(c) == '.') == (c == '.')
  {
  }

  lemma {:induction false} LowerKeepsLabel(s: string)
    ensures ValidLabel(Lower(s)) == ValidLabel(s)
  {
    forall i | 0 <= i < |s|
      ensures IsAlphanumeric(Lower(s)[i]) == IsAlphanumeric(s[i])
      ensures (Lower(s)[i] == '-') == (s[i] == '-')
    {
      LowerKeepsChars(s[i]);
    }
  }

  lemma {:induction false} LowerKeepsLocal(s: string)
    ensures ValidLocal(Lower(s)) == ValidLocal(s)
  {
    forall i | 0 <= i < |s| ensures (Lower(s)[i] == '.') == (s[i] == '.') { LowerKeepsChars(s[i]); }
  }

  lemma {:induction false} LowerKeepsHeaderValue(s: string)
    ensures ValidHeaderValue(Lower(s)) == ValidHeaderValue(s)
  {
    forall i | 0 <= i < |s| ensures IsControl(Lower(s)[i]) == IsControl(s[i]) { LowerKeepsChars(s[i]); }
  }

  lemma {:induction false} LowerKeepsDomain(s: string)
    ensures ValidDomainName(Lower(s)) == ValidDomainName(s)
  {
    LowerKeepsUtf8Len(s);
    LowerKeepsHeaderValue(s);
    SplitOfLower(s, '.');
    forall i | 0 <= i < |s| ensures (Lower(s)[i] as int < 0x80) == (s[i] as int < 0x80) { LowerKeepsChars(s[i]); }
    forall k | 0 <= k < |Split(s, '.')|
      ensures ValidLabel(Split(Lower(s), '.')[k]) == ValidLabel(Split(s, '.')[k])
    {
      LowerKeepsLabel(Split(s, '.')[k]);
    }
  }

  lemma {:induction false} LowerKeepsAddress(s: string)
    ensures ValidEmailAddress(Lower(s)) == ValidEmailAddress(s)
  {
    LowerKeepsUtf8Len(s);
    LowerKeepsHeaderValue(s);
    SplitOfLower(s, '@');
    forall i | 0 <= i < |s|
      ensures IsWhitespace(Lower(s)[i]) == IsWhitespace(s[i])
      ensures IsAddressDelimiter(Lower(s)[i]) == IsAddressDelimiter(s[i])
    {
      LowerKeepsChars(s[i]);
    }
    var parts := Split(s, '@');
    if |parts| == 2 {
      LowerKeepsLocal(parts[0]);
      LowerKeepsDomain(parts[1]);
    }
  }

  /** Two addresses equal up to ASCII case are both valid or both invalid. */
  lemma {:induction false} ValidityIgnoresCase(a: string, b: string)
    requires EqIgnoreCase(a, b)
    ensures ValidEmailAddress(a) == ValidEmailAddress(b)
  {
    LowerKeepsAddress(a);
    LowerKeepsAddress(b);
  }

  // ------------------------------------------------------------------
  // What `enqueue` stores as the destination domain.
  // ------------------------------------------------------------------

  lemma {:induction false} NoSepNoSplit(s: string, sep: char)
    ensures (|Split(s, sep)| == 1) <==> sep !in s
    ensures sep !in s ==> Split(s, sep) == [s]
  {
    if s == [] {
    } else {
      NoSepNoSplit(s[1..], sep);
      assert s == [s[0]] + s[1..];
    }
  }

  lemma {:induction false} SplitInTwo(s: string, sep: char)
    requires |Split(s, sep)| == 2
    ensures s == Split(s, sep)[0] + [sep] + Split(s, sep)[1]
    ensures sep !in Split(s, sep)[0] && sep !in Split(s, sep)[1]
  {
    assert s == [s[0]] + s[1..];
    if s[0] == sep {
      NoSepNoSplit(s[1..], sep);
    } else {
      SplitInTwo(s[1..], sep);
    }
  }

  lemma {:induction false} AfterLastAtOfPair(local: string, domain: string)
    requires '@' !in local && '@' !in domain
    ensures AfterLastAt(local + ['@'] + domain) == domain
  {
    var s := local + ['@'] + domain;
    assert s[|local|] == '@';
    if local == [] {
      assert s[1..] == domain;
    } else {
      assert s[1..] == local[1..] + ['@'] + domain;
      AfterLastAtOfPair(local[1..], domain);
    }
  }

  /** For every address the envelope check accepts, the domain `enqueue` stores
      (the text after the last '@', lower-cased) is a valid domain name, and the
      address is a local part, '@' and that domain up to case. */
  lemma {:induction false} StoredDomainIsValid(address: string)
    requires ValidEmailAddress(address)
    ensures ValidDomainName(Lower(AfterLastAt(address)))
    ensures exists local :: ValidLocal(local) && '@' !in local && address == local + ['@'] + AfterLastAt(address)
  {
    var parts := Split(address, '@');
    SplitInTwo(address, '@');
    AfterLastAtOfPair(parts[0], parts[1]);
    LowerKeepsDomain(parts[1]);
  }

  // ------------------------------------------------------------------
  // Which provisioned mailboxes have a valid address
  // ------------------------------------------------------------------

  const PLACEHOLDER_DOMAIN := "@example.invalid"

  predicate ValidLocalPart(local: string) { ValidEmailAddress(local + PLACEHOLDER_DOMAIN) }

  lemma {:induction false} SplitCount(a: string, b: string, sep: char)
    ensures |Split(a + b, sep)| == |Split(a, sep)| + |Split(b, sep)| - 1
  {
    if a == [] {
      assert a + b == b;
    } else {
      SplitCount(a[1..], b, sep);
      assert (a + b)[1..] == a[1..] + b;
    }
  }

  lemma {:induction false} SplitOfPair(a: string, b: string, sep: char)
    requires sep !in a && sep !in b
    ensures Split(a + [sep] + b, sep) == [a, b]
  {
    var s := a + [sep] + b;
    if a == [] {
      assert s[1..] == b;
      NoSepNoSplit(b, sep);
    } else {
      assert s[1..] == a[1..] + [sep] + b;
      SplitOfPair(a[1..], b, sep);
      assert a == [a[0]] + a[1..];
    }
  }

  lemma {:induction false} DomainHasNoAt(domain: string)
    requires ValidDomainName(domain)
    ensures forall i :: 0 <= i < |domain| ==>
      domain[i] == '.' || IsAlphanumeric(domain[i]) || domain[i] == '-'
    ensures '@' !in domain
  {
    CharsFromLabels(domain);
  }

  lemma {:induction false} CharsFromLabels(s: string)
    requires forall k :: 0 <= k < |Split(s, '.')| ==>
      forall i :: 0 <= i < |Split(s, '.')[k]| ==> IsAlphanumeric(Split(s, '.')[k][i]) || Split(s, '.')[k][i] == '-'
    ensures forall i :: 0 <= i < |s| ==> s[i] == '.' || IsAlphanumeric(s[i]) || s[i] == '-'
  {
    if s == [] {
    } else {
      var parts, rest := Split(s, '.'), Split(s[1..], '.');
      forall k | 0 <= k < |rest|
        ensures forall i :: 0 <= i < |rest[k]| ==> IsAlphanumeric(rest[k][i]) || rest[k][i] == '-'
      {
        if s[0] == '.' {
          assert rest[k] == parts[k + 1];
        } else if k == 0 {
          assert parts[0] == [s[0]] + rest[0];
          assert forall i :: 0 <= i < |rest[0]| ==> rest[0][i] == parts[0][i + 1];
        } else {
          assert rest[k] == parts[k];
        }
      }
      CharsFromLabels(s[1..]);
      if s[0] != '.' { assert parts[0][0] == s[0]; }
    }
  }

  predicate PlainChar(c: char) { !IsControl(c) && !IsWhitespace(c) && !IsAddressDelimiter(c) }

  lemma {:induction false} LocalPartFacts(local: string)
    requires ValidLocalPart(local)
    ensures '@' !in local && ValidLocal(local)
    ensures forall i :: 0 <= i < |local| ==> PlainChar(local[i])
  {
    var domain := Placeholder();
    DomainHasNoAt(domain);
    assert local + PLACEHOLDER_DOMAIN == local + ['@'] + domain;
    FirstHalf(local, domain);
  }

  lemma {:induction false} FirstHalf(local: string, domain: string)
    requires '@' !in domain && ValidEmailAddress(local + ['@'] + domain)
    ensures '@' !in local && ValidLocal(local)
    ensures forall i :: 0 <= i < |local| ==> PlainChar(local[i])
  {
    var address := local + ['@'] + domain;
    assert address == local + (['@'] + domain) && ['@'] + domain == [] + ['@'] + domain;
    SplitOfPair([], domain, '@');
    SplitCount(local, ['@'] + domain, '@');
    NoSepNoSplit(local, '@');
    SplitOfPair(local, domain, '@');
    forall i | 0 <= i < |local| ensures PlainChar(local[i]) { assert local[i] == address[i]; }
  }

  lemma {:induction false} DomainCharsPlain(domain: string)
    requires ValidDomainName(domain)
    ensures forall i :: 0 <= i < |domain| ==> PlainChar(domain[i])
  {
    DomainHasNoAt(domain);
  }

  lemma {:induction false} WholeAddress(local: string, domain: string)
    requires '@' !in local && ValidLocal(local) && ValidDomainName(domain)
    requires forall i :: 0 <= i < |local| ==> PlainChar(local[i])
    ensures ValidEmailAddress(local + ['@'] + domain) <==> Utf8Len(local + ['@'] + domain) <= 254
  {
    var address := local + ['@'] + domain;
    DomainHasNoAt(domain);
    DomainCharsPlain(domain);
    SplitOfPair(local, domain, '@');
    forall i | 0 <= i < |address| ensures PlainChar(address[i]) {
      assert address[i] == if i < |local| then local[i] else if i == |local| then '@' else domain[i - |local| - 1];
    }
  }

  /** A mailbox that passed the provisioning checks has an address the envelope
      check accepts exactly if the whole address fits in 254 bytes. */
  lemma {:induction false} ProvisionedAddress(local: string, domain: string)
    requires ValidLocalPart(local) && ValidDomainName(domain)
    ensures ValidEmailAddress(local + ['@'] + domain) <==> Utf8Len(local + ['@'] + domain) <= 254
  {
    LocalPartFacts(local);
    WholeAddress(local, domain);
  }

  predicate IsAscii(s: string) { forall i :: 0 <= i < |s| ==> s[i] as int < 0x80 }

  lemma {:induction false} AsciiBytes(s: string)
    requires IsAscii(s)
    ensures Utf8Len(s) == |s|
  {
    if s == [] {
    } else {
      AsciiBytes(s[1..]);
    }
  }

  lemma {:induction false} SplitFirst(a: string, b: string, sep: char)
    requires sep !in a
    ensures Split(a + [sep] + b, sep) == [a] + Split(b, sep)
  {
    var s := a + [sep] + b;
    if a == [] {
      assert s[1..] == b;
    } else {
      assert s[1..] == a[1..] + [sep] + b;
      SplitFirst(a[1..], b, sep);
      assert a == [a[0]] + a[1..];
    }
  }

  function Letters(n: nat): (s: string)
    ensures |s| == n && forall i :: 0 <= i < n ==> s[i] == 'a'
  {
    if n == 0 then [] else ['a'] + Letters(n - 1)
  }

  /** Letters and dots whose labels are valid. */
  predicate Labelled(domain: string) {
    && (forall i :: 0 <= i < |domain| ==> domain[i] == 'a' || domain[i] == '.')
    && forall k :: 0 <= k < |Split(domain, '.')| ==> ValidLabel(Split(domain, '.')[k])
  }

  lemma {:induction false} OneLabel(n: nat)
    requires 1 <= n <= 63
    ensures Labelled(Letters(n))
  {
    NoSepNoSplit(Letters(n), '.');
  }

  lemma {:induction false} OneMoreLabel(domain: string)
    requires Labelled(domain)
    ensures Labelled(Letters(63) + ['.'] + domain)
  {
    SplitFirst(Letters(63), domain, '.');
    OneLabel(63);
    NoSepNoSplit(Letters(63), '.');
  }

  lemma {:induction false} LabelledIsValid(domain: string)
    requires Labelled(domain) && 1 <= |domain| <= 253
    ensures ValidDomainName(domain) && Utf8Len(domain) == |domain|
  {
    AsciiBytes(domain);
  }

  /** One letter at a domain that is not too long. */
  lemma {:induction false} LetterAt(domain: string)
    requires ValidDomainName(domain) && IsAscii(domain)
    ensures Utf8Len(Letters(1) + ['@'] + domain) == |domain| + 2
    ensures ValidEmailAddress(Letters(1) + ['@'] + domain) <==> |domain| <= 252
  {
    LetterIsPlain();
    AsciiBytes(Letters(1) + ['@'] + domain);
    WholeAddress(Letters(1), domain);
  }

  lemma {:induction false} LetterIsPlain()
    ensures PlainChar('a')
  {
  }

  lemma {:induction false} Placeholder() returns (domain: string)
    ensures PLACEHOLDER_DOMAIN == ['@'] + domain && ValidDomainName(domain) && IsAscii(domain) && |domain| == 15
  {
    domain := "example" + ['.'] + "invalid";
    PlaceholderLabels();
    TwoLabels("example", "invalid");
  }

  lemma {:induction false} TwoLabels(a: string, b: string)
    requires ValidLabel(a) && ValidLabel(b)
    ensures ValidDomainName(a + ['.'] + b) && IsAscii(a + ['.'] + b)
  {
    SplitOfPair(a, b, '.');
    AsciiBytes(a + ['.'] + b);
  }

  /** Four labels, together 253 bytes. */
  lemma {:induction false} LongDomain() returns (domain: string)
    ensures ValidDomainName(domain) && IsAscii(domain) && |domain| == 253
  {
    OneLabel(61);
    OneMoreLabel(Letters(61));
    var two := Letters(63) + ['.'] + Letters(61);
    OneMoreLabel(two);
    var three := Letters(63) + ['.'] + two;
    OneMoreLabel(three);
    domain := Letters(63) + ['.'] + three;
    LabelledIsValid(domain);
  }

  /** There is such a mailbox: one letter at a domain of 253 bytes. Both halves pass
      the provisioning checks, and the address is one byte too long. */
  lemma {:induction false} LongMailbox() returns (local: string, domain: string)
    ensures ValidLocalPart(local) && ValidDomainName(domain)
    ensures Utf8Len(local + ['@'] + domain) == 255 && !ValidEmailAddress(local + ['@'] + domain)
  {
    local := Letters(1);
    var placeholder := Placeholder();
    LetterAt(placeholder);
    assert local + PLACEHOLDER_DOMAIN == local + ['@'] + placeholder;
    domain := LongDomain();
    LetterAt(domain);
  }

  lemma {:induction false} PlaceholderLabels()
    ensures ValidLabel("example") && ValidLabel("invalid")
  {
  }

  /** A valid address fits on a command line and has no line feed or bracket. */
  lemma {:induction false} AddressIsShort(address: string)
    requires ValidEmailAddress(address)
    ensures |address| <= 254 && '\n' !in address && '>' !in address
  {
    CharsAreBytes(address);
    forall i | 0 <= i < |address| ensures address[i] != '\n' && address[i] != '>' {
      assert !IsControl(address[i]) && !IsAddressDelimiter(address[i]);
    }
  }

  lemma {:induction false} CharsAreBytes(s: string)
    ensures |s| <= Utf8Len(s)
  {
    if s == [] {
    } else {
      CharsAreBytes(s[1..]);
    }
  }
}
