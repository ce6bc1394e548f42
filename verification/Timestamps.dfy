/** The text form of a timestamp: `iso8601` (crates/jmap/src/email.rs). */
module Timestamps {
  import opened Calendar

  function Digit(n: int): char
    requires 0 <= n < 10
  {
    ('0' as int + n) as char
  }

  function Digits(n: nat): (s: string)
    ensures |s| >= 1
  {
    if n < 10 then [Digit(n)] else Digits(n / 10) + [Digit(n % 10)]
  }

  function ZeroPad(s: string, width: nat): string
    decreases width - |s|
  {
    if |s| >= width then s else ZeroPad("0" + s, width)
  }

  /** `{:04}`: the sign counts towards the width. */
  function YearText(y: int): string {
    if y >= 0 then ZeroPad(Digits(y), 4) else "-" + ZeroPad(Digits(-y), 3)
  }

  /** A separator, a `{:02}` field, and what follows. */
  function Field(sep: char, n: nat, rest: string): string { [sep] + ZeroPad(Digits(n), 2) + rest }

  datatype Fields = Fields(date: Date, hour: int, minute: int, second: int)

  function FieldsOf(unixSecs: int): Fields {
    var secs := unixSecs % 86400;
    Fields(CivilFromDays(unixSecs / 86400), secs / 3600, secs % 3600 / 60, secs % 60)
  }

  function Iso8601(unixSecs: int): string {
    var f := FieldsOf(unixSecs);
    CivilInvertsDayNumber(unixSecs / 86400);
    YearText(f.date.year) + Tail(f.date.month, f.date.day, unixSecs % 86400)
  }

  function Tail(month: nat, day: nat, secs: nat): string {
    Field('-', month, Field('-', day, Clock(secs)))
  }

  function Clock(secs: nat): string {
    Field('T', secs / 3600, Field(':', secs % 3600 / 60, Field(':', secs % 60, "Z")))
  }

  /** The fields give the timestamp back. */
  lemma {:induction false} FieldsDetermineTimestamp(unixSecs: int)
    ensures var f := FieldsOf(unixSecs);
      ValidDate(f.date) && 0 <= f.hour < 24 && 0 <= f.minute < 60 && 0 <= f.second < 60
      && DayNumber(f.date) * 86400 + f.hour * 3600 + f.minute * 60 + f.second == unixSecs
  {
    CivilInvertsDayNumber(unixSecs / 86400);
    ClockParts(unixSecs % 86400);
  }

  lemma {:induction false} ClockParts(secs: int)
    requires 0 <= secs < 86400
    ensures 0 <= secs / 3600 < 24 && 0 <= secs % 3600 / 60 < 60 && 0 <= secs % 60 < 60
    ensures secs / 3600 * 3600 + secs % 3600 / 60 * 60 + secs % 60 == secs
  {
    assert secs % 3600 % 60 == secs % 60;
  }

  // ------------------------------------------------------------------
  // Reading the text back
  // ------------------------------------------------------------------

  /** The number these decimal digits write down. */
  function Value(s: string): int {
    if s == [] then 0 else Value(s[..|s| - 1]) * 10 + (s[|s| - 1] as int - '0' as int)
  }

  predicate Decimal(s: string) { forall i :: 0 <= i < |s| ==> '0' <= s[i] <= '9' }

  lemma {:induction false} DigitsRead(n: nat)
    ensures Value(Digits(n)) == n && Decimal(Digits(n))
  {
    if n < 10 {
      assert Value([]) == 0 && Digits(n)[..0] == [];
    } else {
      DigitsRead(n / 10);
      assert Digits(n)[..|Digits(n)| - 1] == Digits(n / 10);
    }
  }

  lemma {:induction false} LeadingZero(s: string)
    ensures Value("0" + s) == Value(s)
  {
    if s == [] {
      assert ("0" + s)[..0] == [];
    } else {
      assert ("0" + s)[..|s|] == "0" + s[..|s| - 1];
      LeadingZero(s[..|s| - 1]);
    }
  }

  lemma {:induction false} PaddedReads(s: string, width: nat)
    requires Decimal(s)
    ensures Value(ZeroPad(s, width)) == Value(s) && Decimal(ZeroPad(s, width)) && |ZeroPad(s, width)| >= width
    decreases width - |s|
  {
    if |s| >= width {
    } else {
      LeadingZero(s);
      PaddedReads("0" + s, width);
    }
  }

  /** At k there is a separator and then a number in two digits. */
  predicate FieldAt(s: string, k: nat, sep: char, n: int) { k + 3 <= |s| && s[k] == sep && Value(s[k + 1..k + 3]) == n }

  lemma {:induction false} FieldReads(sep: char, n: nat, rest: string)
    requires n < 100
    ensures |Field(sep, n, rest)| == 3 + |rest| && FieldAt(Field(sep, n, rest), 0, sep, n)
  {
    DigitsRead(n);
    PaddedReads(Digits(n), 2);
    TwoDigits(n);
    assert Field(sep, n, rest)[1..3] == ZeroPad(Digits(n), 2);
  }

  lemma {:induction false} FieldAfter(sep: char, n: nat, rest: string, k: nat, sep': char, n': int)
    requires n < 100 && FieldAt(rest, k, sep', n')
    ensures FieldAt(Field(sep, n, rest), k + 3, sep', n')
  {
    TwoDigits(n);
    var s := Field(sep, n, rest);
    assert s[k + 4..k + 6] == rest[k + 1..k + 3];
  }

  /** A year: digits, after a minus sign if it is before the year 0. */
  function YearValue(s: string): int { if s != [] && s[0] == '-' then -Value(s[1..]) else Value(s) }

  lemma {:induction false} YearReads(y: int)
    ensures YearValue(YearText(y)) == y && |YearText(y)| >= 4
  {
    var n := if y >= 0 then y else -y;
    DigitsRead(n);
    PaddedReads(Digits(n), if y >= 0 then 4 else 3);
    if y < 0 { assert YearText(y)[1..] == ZeroPad(Digits(-y), 3); }
  }

  /** The numbers in a text that is a year and then `-month-dayThour:minute:secondZ`. */
  function Read(s: string): Fields
    requires |s| >= 16
  {
    var n := |s| - 16;
    Fields(Date(YearValue(s[..n]), Value(s[n + 1..n + 3]), Value(s[n + 4..n + 6])),
           Value(s[n + 7..n + 9]), Value(s[n + 10..n + 12]), Value(s[n + 13..n + 15]))
  }

  predicate Separated(s: string) {
    && |s| >= 20
    && var n := |s| - 16;
       s[n] == '-' && s[n + 3] == '-' && s[n + 6] == 'T' && s[n + 9] == ':' && s[n + 12] == ':' && s[n + 15] == 'Z'
  }

  /** Every timestamp is written so, and the numbers in the text give it back. */
  lemma {:induction false} IsoReadsBack(t: int)
    ensures Separated(Iso8601(t)) && ValidDate(Read(Iso8601(t)).date)
    ensures var f := Read(Iso8601(t)); DayNumber(f.date) * 86400 + f.hour * 3600 + f.minute * 60 + f.second == t
  {
    FieldsDetermineTimestamp(t);
    var f := FieldsOf(t);
    YearReads(f.date.year);
    TailReads(f.date.year, f.date.month, f.date.day, t % 86400);
    ReadsAfterYear(YearText(f.date.year), Tail(f.date.month, f.date.day, t % 86400), f);
  }

  /** The fields after the year. */
  predicate TailFields(s: string, f: Fields) {
    && |s| == 16 && FieldAt(s, 0, '-', f.date.month) && FieldAt(s, 3, '-', f.date.day)
    && FieldAt(s, 6, 'T', f.hour) && FieldAt(s, 9, ':', f.minute) && FieldAt(s, 12, ':', f.second) && s[15] == 'Z'
  }

  lemma {:induction false} ReadsAfterYear(year: string, tail: string, f: Fields)
    requires |year| >= 4 && YearValue(year) == f.date.year && TailFields(tail, f)
    ensures Separated(year + tail) && Read(year + tail) == f
  {
    var s, n := year + tail, |year|;
    assert s[..n] == year;
    assert s[n + 1..n + 3] == tail[1..3] && s[n + 4..n + 6] == tail[4..6] && s[n + 7..n + 9] == tail[7..9];
    assert s[n + 10..n + 12] == tail[10..12] && s[n + 13..n + 15] == tail[13..15];
  }

  lemma {:induction false} TailReads(year: int, month: nat, day: nat, secs: nat)
    requires month < 100 && day < 100 && secs < 86400
    ensures TailFields(Tail(month, day, secs), Fields(Date(year, month, day), secs / 3600, secs % 3600 / 60, secs % 60))
  {
    DaysRead(day, secs);
    MonthRead(year, month, day, secs / 3600, secs % 3600 / 60, secs % 60, Field('-', day, Clock(secs)));
  }

  lemma {:induction false} MonthRead(year: int, month: nat, day: int, hour: int, minute: int, second: int, days: string)
    requires month < 100 && |days| == 13 && FieldAt(days, 0, '-', day) && FieldAt(days, 3, 'T', hour)
    requires FieldAt(days, 6, ':', minute) && FieldAt(days, 9, ':', second) && days[12] == 'Z'
    ensures TailFields(Field('-', month, days), Fields(Date(year, month, day), hour, minute, second))
  {
    FieldReads('-', month, days);
    FieldAfter('-', month, days, 0, '-', day);
    FieldAfter('-', month, days, 3, 'T', hour);
    FieldAfter('-', month, days, 6, ':', minute);
    FieldAfter('-', month, days, 9, ':', second);
    FieldEnds('-', month, days);
  }

  lemma {:induction false} FieldEnds(sep: char, n: nat, rest: string)
    requires rest != []
    ensures Field(sep, n, rest)[|Field(sep, n, rest)| - 1] == rest[|rest| - 1]
  {
  }

  lemma {:induction false} DaysRead(day: nat, secs: nat)
    requires day < 100 && secs < 86400
    ensures var s := Field('-', day, Clock(secs));
      && |s| == 13 && FieldAt(s, 0, '-', day) && FieldAt(s, 3, 'T', secs / 3600) && FieldAt(s, 6, ':', secs % 3600 / 60)
      && FieldAt(s, 9, ':', secs % 60) && s[12] == 'Z'
  {
    ClockReads(secs);
    DayRead(day, secs / 3600, secs % 3600 / 60, secs % 60, Clock(secs));
  }

  lemma {:induction false} DayRead(day: nat, hour: int, minute: int, second: int, clock: string)
    requires day < 100 && |clock| == 10 && FieldAt(clock, 0, 'T', hour) && FieldAt(clock, 3, ':', minute)
    requires FieldAt(clock, 6, ':', second) && clock[9] == 'Z'
    ensures var s := Field('-', day, clock);
      && |s| == 13 && FieldAt(s, 0, '-', day) && FieldAt(s, 3, 'T', hour) && FieldAt(s, 6, ':', minute)
      && FieldAt(s, 9, ':', second) && s[12] == 'Z'
  {
    FieldReads('-', day, clock);
    FieldAfter('-', day, clock, 0, 'T', hour);
    FieldAfter('-', day, clock, 3, ':', minute);
    FieldAfter('-', day, clock, 6, ':', second);
    FieldEnds('-', day, clock);
  }

  lemma {:induction false} ClockReads(secs: nat)
    requires secs < 86400
    ensures var s := Clock(secs);
      && |s| == 10 && FieldAt(s, 0, 'T', secs / 3600) && FieldAt(s, 3, ':', secs % 3600 / 60) && FieldAt(s, 6, ':', secs % 60)
      && s[9] == 'Z'
  {
    var second := Field(':', secs % 60, "Z");
    var minute := Field(':', secs % 3600 / 60, second);
    FieldReads(':', secs % 60, "Z");
    FieldReads(':', secs % 3600 / 60, second);
    FieldReads('T', secs / 3600, minute);
    FieldAfter(':', secs % 3600 / 60, second, 0, ':', secs % 60);
    FieldAfter('T', secs / 3600, minute, 0, ':', secs % 3600 / 60);
    FieldAfter('T', secs / 3600, minute, 3, ':', secs % 60);
    FieldEnds(':', secs % 60, "Z");
    FieldEnds(':', secs % 3600 / 60, second);
    FieldEnds('T', secs / 3600, minute);
  }

  // ------------------------------------------------------------------
  // Order
  // ------------------------------------------------------------------

  /** Order of strings, character by character. */
  predicate LexLess(a: string, b: string) {
    b != [] && (a == [] || a[0] < b[0] || (a[0] == b[0] && LexLess(a[1..], b[1..])))
  }

  lemma {:induction false} LexConcat(a: string, b: string, x: string, y: string)
    requires |a| == |b|
    ensures LexLess(a + x, b + y) <==> LexLess(a, b) || (a == b && LexLess(x, y))
  {
    if a == [] {
      assert a + x == x && b + y == y;
    } else {
      LexConcat(a[1..], b[1..], x, y);
      assert (a + x)[1..] == a[1..] + x && (b + y)[1..] == b[1..] + y;
      assert a == [a[0]] + a[1..] && b == [b[0]] + b[1..];
    }
  }

  lemma {:induction false} TwoDigits(n: nat)
    requires n < 100
    ensures ZeroPad(Digits(n), 2) == [Digit(n / 10)] + [Digit(n % 10)]
  {
  }

  lemma {:induction false} DigitOrder(a: int, b: int)
    requires 0 <= a < 10 && 0 <= b < 10
    ensures LexLess([Digit(a)], [Digit(b)]) <==> a < b
  {
    assert [Digit(a)][1..] == [] && [Digit(b)][1..] == [];
  }

  lemma {:induction false} TwoOrder(a: nat, b: nat)
    requires a < 100 && b < 100
    ensures |ZeroPad(Digits(a), 2)| == |ZeroPad(Digits(b), 2)| == 2
    ensures LexLess(ZeroPad(Digits(a), 2), ZeroPad(Digits(b), 2)) <==> a < b
    ensures ZeroPad(Digits(a), 2) == ZeroPad(Digits(b), 2) <==> a == b
  {
    TwoDigits(a);
    TwoDigits(b);
    LexConcat([Digit(a / 10)], [Digit(b / 10)], [Digit(a % 10)], [Digit(b % 10)]);
    DigitOrder(a / 10, b / 10);
    DigitOrder(a % 10, b % 10);
    var s, t := ZeroPad(Digits(a), 2), ZeroPad(Digits(b), 2);
    if s == t { assert s[0] == t[0] && s[1] == t[1]; }
  }

  lemma {:induction false} FieldOrder(sep: char, a: nat, b: nat, x: string, y: string)
    requires a < 100 && b < 100 && |x| == |y|
    ensures |Field(sep, a, x)| == |Field(sep, b, y)|
    ensures LexLess(Field(sep, a, x), Field(sep, b, y)) <==> a < b || (a == b && LexLess(x, y))
  {
    TwoOrder(a, b);
    var s, t := ZeroPad(Digits(a), 2), ZeroPad(Digits(b), 2);
    assert Field(sep, a, x) == [sep] + (s + x) && Field(sep, b, y) == [sep] + (t + y);
    LexConcat([sep], [sep], s + x, t + y);
    assert !LexLess([sep], [sep]) by { assert [sep][1..] == []; }
    LexConcat(s, t, x, y);
  }

  lemma {:induction false} ClockOrder(a: nat, b: nat)
    requires a < 86400 && b < 86400
    ensures |Clock(a)| == |Clock(b)| && (LexLess(Clock(a), Clock(b)) <==> a < b)
  {
    FieldOrder(':', a % 60, b % 60, "Z", "Z");
    FieldOrder(':', a % 3600 / 60, b % 3600 / 60, Field(':', a % 60, "Z"), Field(':', b % 60, "Z"));
    FieldOrder('T', a / 3600, b / 3600, Field(':', a % 3600 / 60, Field(':', a % 60, "Z")), Field(':', b % 3600 / 60, Field(':', b % 60, "Z")));
    Irreflexive("Z");
    ClockParts(a);
    ClockParts(b);
    ClockCompare(a, b);
  }

  lemma {:induction false} ClockCompare(a: int, b: int)
    requires 0 <= a < 86400 && 0 <= b < 86400
    ensures a < b <==>
      a / 3600 < b / 3600 || (a / 3600 == b / 3600 && (a % 3600 / 60 < b % 3600 / 60 || (a % 3600 / 60 == b % 3600 / 60 && a % 60 < b % 60)))
  {
    ClockParts(a);
    ClockParts(b);
  }

  lemma {:induction false} TailOrder(m: nat, d: nat, a: nat, n: nat, e: nat, b: nat)
    requires m < 100 && d < 100 && n < 100 && e < 100 && a < 86400 && b < 86400
    ensures |Tail(m, d, a)| == |Tail(n, e, b)|
    ensures LexLess(Tail(m, d, a), Tail(n, e, b)) <==> m < n || (m == n && (d < e || (d == e && a < b)))
  {
    ClockOrder(a, b);
    FieldOrder('-', d, e, Clock(a), Clock(b));
    FieldOrder('-', m, n, Field('-', d, Clock(a)), Field('-', e, Clock(b)));
  }

  function Two(n: int): string
    requires 0 <= n < 100
  {
    [Digit(n / 10)] + [Digit(n % 10)]
  }

  lemma {:induction false} PadOnce(s: string, width: nat)
    requires |s| < width
    ensures ZeroPad(s, width) == ZeroPad("0" + s, width)
  {
  }

  lemma {:induction false} PadTwo(s: string)
    requires |s| == 2
    ensures ZeroPad(s, 4) == "00" + s
  {
    PadOnce(s, 4);
    PadOnce("0" + s, 4);
    assert "0" + ("0" + s) == "00" + s;
  }

  /** Below 100, four characters are two zeros and two digits. */
  lemma {:induction false} SmallYear(n: nat)
    requires n < 100
    ensures ZeroPad(Digits(n), 4) == "00" + Two(n)
  {
    TwoDigits(n);
    if n < 10 { PadOnce(Digits(n), 4); }
    PadTwo(ZeroPad(Digits(n), 2));
  }

  lemma {:induction false} Hundreds(n: nat)
    requires 100 <= n
    ensures Digits(n) == Digits(n / 100) + Two(n % 100)
  {
    assert n / 10 / 10 == n / 100 && n / 10 % 10 == n % 100 / 10 && n % 10 == n % 100 % 10;
    assert Digits(n) == Digits(n / 10) + [Digit(n % 10)];
    assert Digits(n / 10) == Digits(n / 10 / 10) + [Digit(n / 10 % 10)];
  }

  lemma {:induction false} FourDigits(n: nat)
    requires n < 10000
    ensures ZeroPad(Digits(n), 4) == Two(n / 100) + Two(n % 100)
  {
    if n < 100 {
      SmallYear(n);
    } else {
      Hundreds(n);
      TwoDigits(n / 100);
      if n < 1000 { PadOnce(Digits(n), 4); }
    }
  }

  lemma {:induction false} NegativeYear(y: int)
    requires -10 < y < 0
    ensures YearText(y) == "-00" + [Digit(-y)]
  {
    var d := [Digit(-y)];
    assert ZeroPad(d, 3) == ZeroPad("0" + d, 3) == ZeroPad("0" + ("0" + d), 3) == "0" + ("0" + d);
  }

  /** Years -1 to 9999 are written in four characters, in order. */
  lemma {:induction false} YearOrder(a: int, b: int)
    requires -1 <= a <= 9999 && -1 <= b <= 9999
    ensures |YearText(a)| == |YearText(b)| == 4
    ensures LexLess(YearText(a), YearText(b)) <==> a < b
    ensures a != b ==> YearText(a) != YearText(b)
  {
    if a >= 0 { FourDigits(a); } else { NegativeYear(a); }
    if b >= 0 { FourDigits(b); } else { NegativeYear(b); }
    if a >= 0 && b >= 0 {
      LexConcat(Two(a / 100), Two(b / 100), Two(a % 100), Two(b % 100));
      TwoDigits(a / 100); TwoDigits(b / 100); TwoDigits(a % 100); TwoDigits(b % 100);
      TwoOrder(a / 100, b / 100);
      TwoOrder(a % 100, b % 100);
      if YearText(a) == YearText(b) {
        assert Two(a / 100) == YearText(a)[..2] && Two(b / 100) == YearText(b)[..2];
        assert Two(a % 100) == YearText(a)[2..] && Two(b % 100) == YearText(b)[2..];
      }
    } else if a < 0 && b < 0 {
      assert !LexLess(YearText(a), YearText(b)) by { Irreflexive(YearText(a)); }
    } else {
      assert YearText(a)[0] != YearText(b)[0];
    }
  }

  lemma {:induction false} Irreflexive(s: string)
    ensures !LexLess(s, s)
  {
    if s == [] {
    } else {
      Irreflexive(s[1..]);
    }
  }

  function YearOf(unixSecs: int): int { CivilFromDays(unixSecs / 86400).year }

  /** For years -1 to 9999, order of the texts is order in time. */
  lemma {:induction false} OrderIsTime(t: int, u: int)
    requires -1 <= YearOf(t) <= 9999 && -1 <= YearOf(u) <= 9999
    ensures LexLess(Iso8601(t), Iso8601(u)) <==> t < u
  {
    var a, b := CivilFromDays(t / 86400), CivilFromDays(u / 86400);
    CivilInvertsDayNumber(t / 86400);
    CivilInvertsDayNumber(u / 86400);
    YearOrder(a.year, b.year);
    TailOrder(a.month, a.day, t % 86400, b.month, b.day, u % 86400);
    LexConcat(YearText(a.year), YearText(b.year), Tail(a.month, a.day, t % 86400), Tail(b.month, b.day, u % 86400));
    if Before(a, b) { DayNumberMonotone(a, b); }
    if Before(b, a) { DayNumberMonotone(b, a); }
  }

  ghost predicate OrderHolds(first: int, last: int) {
    forall t, u :: first <= YearOf(t) <= last && first <= YearOf(u) <= last && t < u ==> LexLess(Iso8601(t), Iso8601(u))
  }

  /** No wider range of years is ordered: "10000" sorts before "9999" and "-001"
      before "-002". */
  lemma {:induction false} OrderExactly(first: int, last: int)
    requires first <= 0 && last >= 9999
    ensures OrderHolds(first, last) <==> first >= -1 && last <= 9999
  {
    if first >= -1 && last <= 9999 {
      forall t, u | first <= YearOf(t) <= last && first <= YearOf(u) <= last && t < u ensures LexLess(Iso8601(t), Iso8601(u)) {
        OrderIsTime(t, u);
      }
    }
    if last > 9999 {
      FiveDigits();
    }
    if first < -1 {
      TwoNegatives();
    }
  }

  /** The year's text decides where it differs from the other's. */
  lemma {:induction false} LaterYearText(t: int, u: int, k: nat)
    requires k < |YearText(YearOf(t))| && k < |YearText(YearOf(u))|
    requires YearText(YearOf(t))[..k] == YearText(YearOf(u))[..k] && YearText(YearOf(t))[k] > YearText(YearOf(u))[k]
    ensures !LexLess(Iso8601(t), Iso8601(u))
  {
    var a, b := Iso8601(t), Iso8601(u);
    assert a[..k] == YearText(YearOf(t))[..k] && b[..k] == YearText(YearOf(u))[..k];
    assert a == a[..k] + a[k..] && b == b[..k] + b[k..];
    LexConcat(a[..k], b[..k], a[k..], b[k..]);
    Irreflexive(a[..k]);
  }

  lemma {:induction false} YearAt(t: int, date: Date)
    requires ValidDate(date) && t / 86400 == DayNumber(date)
    ensures YearOf(t) == date.year
  {
    CivilOfDayNumber(date);
  }

  lemma {:induction false} FiveDigitText()
    ensures YearText(9999)[0] == '9' && YearText(10000)[0] == '1'
  {
    FourDigits(9999);
    assert Digits(100) == Digits(10) + [Digit(0)];
    assert Digits(1000) == Digits(100) + [Digit(0)];
    assert Digits(10000) == Digits(1000) + [Digit(0)];
  }

  lemma {:induction false} FiveDigits()
    ensures YearOf(253402300799) == 9999 && YearOf(253402300800) == 10000
    ensures !LexLess(Iso8601(253402300799), Iso8601(253402300800))
  {
    YearAt(253402300799, Date(9999, 12, 31));
    YearAt(253402300800, Date(10000, 1, 1));
    FiveDigitText();
    LaterYearText(253402300799, 253402300800, 0);
  }

  lemma {:induction false} TwoNegatives()
    ensures YearOf(-62198755201) == -2 && YearOf(-62198755200) == -1
    ensures !LexLess(Iso8601(-62198755201), Iso8601(-62198755200))
  {
    YearAt(-62198755201, Date(-2, 12, 31));
    YearAt(-62198755200, Date(-1, 1, 1));
    NegativeYear(-2);
    NegativeYear(-1);
    LaterYearText(-62198755201, -62198755200, 3);
  }
}
