/** Which mail addresses and greetings the validators of crates/common/src/input.rs accept,
    as a grammar: dot-separated atoms, '@', dot-separated labels. */
module AddressGrammar {
  import opened Text
  import opened Input

  /** The parts with the separator between them. */
  function Join(parts: seq<string>, sep: char): string
    requires parts != []
  {
    if |parts| == 1 then parts[0] else parts[0] + [sep] + Join(parts[1..], sep)
  }

  lemma {:induction false} JoinFirst(part: string, parts: seq<string>, sep: char)
    requires parts != []
    ensures Join([part] + parts, sep) == part + [sep] + Join(parts, sep)
  {
    assert ([part] + parts)[1..] == parts;
  }

  lemma {:induction false} JoinGrows(c: char, parts: seq<string>, sep: char)
    requires parts != []
    ensures Join([[c] + parts[0]] + parts[1..], sep) == [c] + Join(parts, sep)
  {
    if |parts| == 1 {
      assert [[c] + parts[0]] + parts[1..] == [[c] + parts[0]];
    } else {
      JoinFirst([c] + parts[0], parts[1..], sep);
    }
  }

  /** Splitting at a separator undoes joining with it, and the parts do not contain it. */
  lemma {:induction false} JoinOfSplit(s: string, sep: char)
    ensures Join(Split(s, sep), sep) == s && forall k :: 0 <= k < |Split(s, sep)| ==> sep !in Split(s, sep)[k]
  {
    if s == [] {
    } else {
      var rest := Split(s[1..], sep);
      JoinOfSplit(s[1..], sep);
      if s[0] == sep {
        JoinFirst([], rest, sep);
        assert [] + [sep] + s[1..] == s;
      } else {
        JoinGrows(s[0], rest, sep);
        assert [s[0]] + s[1..] == s;
      }
    }
  }

  lemma {:induction false} SplitOfJoin(parts: seq<string>, sep: char)
    requires parts != [] && forall k :: 0 <= k < |parts| ==> sep !in parts[k]
    ensures Split(Join(parts, sep), sep) == parts
  {
    if |parts| == 1 {
      NoSepNoSplit(parts[0], sep);
      assert parts == [parts[0]];
    } else {
      SplitOfJoin(parts[1..], sep);
      SplitFirst(parts[0], Join(parts[1..], sep), sep);
      assert parts == [parts[0]] + parts[1..];
    }
  }

  // ------------------------------------------------------------------
  // Domains
  // ------------------------------------------------------------------

  predicate LetterOrDigit(c: char) { c in "abcdefghijklmnopqrstuvwxyz" || c in "ABCDEFGHIJKLMNOPQRSTUVWXYZ" || c in "0123456789" }

  /** Up to 63 letters, digits and inner hyphens. */
  predicate Label(l: string) {
    1 <= |l| <= 63 && forall i :: 0 <= i < |l| ==> LetterOrDigit(l[i]) || (l[i] == '-' && 0 < i < |l| - 1)
  }

  ghost predicate Labels(d: string, labels: seq<string>) {
    labels != [] && d == Join(labels, '.') && forall k :: 0 <= k < |labels| ==> Label(labels[k])
  }

  /** Labels with dots between them, up to 253 characters. */
  ghost predicate Domain(d: string) { |d| <= 253 && exists labels :: Labels(d, labels) }

  lemma {:induction false} AlphanumericExactly(c: char)
    ensures IsAlphanumeric(c) <==> LetterOrDigit(c)
  {
    var lower, upper, digits := "abcdefghijklmnopqrstuvwxyz", "ABCDEFGHIJKLMNOPQRSTUVWXYZ", "0123456789";
    assert forall i :: 0 <= i < 26 ==> lower[i] as int == 'a' as int + i;
    assert forall i :: 0 <= i < 26 ==> upper[i] as int == 'A' as int + i;
    assert forall i :: 0 <= i < 10 ==> digits[i] as int == '0' as int + i;
    if 'a' <= c <= 'z' { assert c == lower[c as int - 'a' as int]; }
    if 'A' <= c <= 'Z' { assert c == upper[c as int - 'A' as int]; }
    if '0' <= c <= '9' { assert c == digits[c as int - '0' as int]; }
  }

  lemma {:induction false} LabelExactly(l: string)
    ensures ValidLabel(l) <==> Label(l)
  {
    forall i | 0 <= i < |l| ensures IsAlphanumeric(l[i]) <==> LetterOrDigit(l[i]) { AlphanumericExactly(l[i]); }
    if Label(l) {
      assert LetterOrDigit(l[0]) && LetterOrDigit(l[|l| - 1]);
    }
  }

  lemma {:induction false} NoDotInLabel(l: string)
    requires ValidLabel(l)
    ensures '.' !in l
  {
  }

  lemma {:induction false} DomainExactly(d: string)
    ensures ValidDomainName(d) <==> Domain(d)
  {
    forall l ensures ValidLabel(l) <==> Label(l) { LabelExactly(l); }
    if ValidDomainName(d) {
      JoinOfSplit(d, '.');
      AsciiBytes(d);
      assert Labels(d, Split(d, '.'));
    }
    if Domain(d) {
      var labels :| Labels(d, labels);
      LabelsValid(d, labels);
    }
  }

  lemma {:induction false} LabelsValid(d: string, labels: seq<string>)
    requires |d| <= 253 && labels != [] && d == Join(labels, '.') && forall k :: 0 <= k < |labels| ==> ValidLabel(labels[k])
    ensures ValidDomainName(d)
  {
    forall k | 0 <= k < |labels| ensures '.' !in labels[k] { NoDotInLabel(labels[k]); }
    SplitOfJoin(labels, '.');
    CharsFromLabels(d);
    AsciiBytes(d);
    assert labels[0] != [] && |d| >= |labels[0]|;
  }

  // ------------------------------------------------------------------
  // Local parts
  // ------------------------------------------------------------------

  ghost predicate Atoms(l: string, atoms: seq<string>) {
    atoms != [] && l == Join(atoms, '.') && forall k :: 0 <= k < |atoms| ==> atoms[k] != [] && '.' !in atoms[k]
  }

  /** Non-empty atoms with dots between them. */
  ghost predicate DotAtom(l: string) { exists atoms :: Atoms(l, atoms) }

  lemma {:induction false} AtomsNonEmpty(l: string)
    requires l != [] && l[|l| - 1] != '.' && forall i :: 0 <= i < |l| - 1 ==> !(l[i] == '.' && l[i + 1] == '.')
    ensures forall k :: 1 <= k < |Split(l, '.')| ==> Split(l, '.')[k] != []
    ensures l[0] != '.' ==> Split(l, '.')[0] != []
  {
    if |l| == 1 {
    } else {
      var tail := l[1..];
      assert forall i :: 0 <= i < |tail| ==> tail[i] == l[i + 1];
      AtomsNonEmpty(tail);
    }
  }

  lemma {:induction false} LeadingDot(l: string)
    requires l != [] && l[0] == '.'
    ensures Split(l, '.')[0] == [] && |Split(l, '.')| >= 2
    ensures |l| == 1 ==> Split(l, '.')[1] == []
  {
  }

  lemma {:induction false} NonEmptyAtoms(l: string)
    requires l != [] && forall k :: 1 <= k < |Split(l, '.')| ==> Split(l, '.')[k] != []
    ensures l[|l| - 1] != '.'
    ensures forall i :: 0 <= i < |l| - 1 ==> !(l[i] == '.' && l[i + 1] == '.')
  {
    var parts, rest := Split(l, '.'), Split(l[1..], '.');
    if |l| == 1 {
      if l[0] == '.' { LeadingDot(l); }
    } else {
      forall k | 1 <= k < |rest| ensures rest[k] != [] {
        assert rest[k] == if l[0] == '.' then parts[k + 1] else parts[k];
      }
      NonEmptyAtoms(l[1..]);
      assert l[0] == '.' ==> rest[0] == parts[1];
      assert l[1] == '.' ==> rest[0] == [];
      forall i | 0 <= i < |l| - 1 ensures !(l[i] == '.' && l[i + 1] == '.') {
        if i > 0 { assert l[i] == l[1..][i - 1] && l[i + 1] == l[1..][i]; }
      }
    }
  }

  lemma {:induction false} LocalExactly(l: string)
    ensures ValidLocal(l) <==> DotAtom(l)
  {
    if ValidLocal(l) {
      AtomsNonEmpty(l);
      JoinOfSplit(l, '.');
      assert Atoms(l, Split(l, '.'));
    }
    if DotAtom(l) {
      var atoms :| Atoms(l, atoms);
      SplitOfJoin(atoms, '.');
      assert atoms[0] != [] && |l| >= |atoms[0]|;
      NonEmptyAtoms(l);
      if l[0] == '.' { LeadingDot(l); }
    }
  }

  // ------------------------------------------------------------------
  // Addresses
  // ------------------------------------------------------------------

  /** Neither a blank, nor a control character, nor one that has a meaning in a header. */
  predicate Printable(c: char) {
    var n := c as int;
    && 0x20 < n && !(0x7F <= n <= 0xA0) && n != 0x1680 && !(0x2000 <= n <= 0x200A)
    && n !in {0x2028, 0x2029, 0x202F, 0x205F, 0x3000}
    && c !in {'<', '>', '(', ')', '[', ']', ',', ';', ':', '\\', '"'}
  }

  lemma {:induction false} WhitespaceExactly(c: char)
    ensures IsWhitespace(c) <==> c as int in {9, 10, 11, 12, 13, 0x20, 0x85, 0xA0, 0x1680, 0x2000, 0x2001, 0x2002, 0x2003, 0x2004,
                                              0x2005, 0x2006, 0x2007, 0x2008, 0x2009, 0x200A, 0x2028, 0x2029, 0x202F, 0x205F, 0x3000}
    ensures IsControl(c) <==> c as int <= 0x1F || 0x7F <= c as int <= 0x9F
  {
  }

  ghost predicate Halves(a: string, local: string, domain: string) {
    && a == local + ['@'] + domain && DotAtom(local) && Domain(domain)
    && forall i :: 0 <= i < |local| ==> Printable(local[i]) && local[i] != '@'
  }

  /** An address: atoms, '@' and a domain, up to 254 bytes in all. */
  ghost predicate Mailbox(a: string) { Utf8Len(a) <= 254 && exists local, domain :: Halves(a, local, domain) }

  lemma {:induction false} PrintableExactly(c: char)
    ensures PlainChar(c) <==> Printable(c)
  {
  }

  lemma {:induction false} AddressHasHalves(a: string)
    requires ValidEmailAddress(a)
    ensures Mailbox(a)
  {
    SplitInTwo(a, '@');
    var local, domain := Split(a, '@')[0], Split(a, '@')[1];
    LocalExactly(local);
    DomainExactly(domain);
    forall i | 0 <= i < |local| ensures Printable(local[i]) && local[i] != '@' {
      assert local[i] == a[i] && local[i] in local;
      PrintableExactly(a[i]);
    }
    assert Halves(a, local, domain);
  }

  lemma {:induction false} HalvesAreAddress(a: string, local: string, domain: string)
    requires Halves(a, local, domain) && Utf8Len(a) <= 254
    ensures ValidEmailAddress(a)
  {
    LocalExactly(local);
    DomainExactly(domain);
    forall i | 0 <= i < |local| ensures PlainChar(local[i]) { PrintableExactly(local[i]); }
    WholeAddress(local, domain);
  }

  /** The envelope check accepts exactly the addresses of the grammar. */
  lemma {:induction false} AddressExactly(a: string)
    ensures ValidEmailAddress(a) <==> Mailbox(a)
  {
    if ValidEmailAddress(a) { AddressHasHalves(a); }
    if Mailbox(a) {
      var local, domain :| Halves(a, local, domain);
      HalvesAreAddress(a, local, domain);
    }
  }
}
