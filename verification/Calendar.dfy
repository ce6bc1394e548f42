/** Dates of messages: `civil_from_days` and `iso8601` (crates/jmap/src/email.rs)
    against the proleptic Gregorian calendar. */
module Calendar {

  // ------------------------------------------------------------------
  // The calendar
  // ------------------------------------------------------------------

  datatype Date = Date(year: int, month: int, day: int)

  predicate IsLeap(y: int) { y % 4 == 0 && (y % 100 != 0 || y % 400 == 0) }

  function DaysInMonth(y: int, m: int): int {
    if m == 2 then (if IsLeap(y) then 29 else 28)
    else if m == 4 || m == 6 || m == 9 || m == 11 then 30 else 31
  }

  predicate ValidDate(t: Date) { 1 <= t.month <= 12 && 1 <= t.day <= DaysInMonth(t.year, t.month) }

  function NextDay(t: Date): Date {
    if t.day < DaysInMonth(t.year, t.month) then Date(t.year, t.month, t.day + 1)
    else if t.month < 12 then Date(t.year, t.month + 1, 1)
    else Date(t.year + 1, 1, 1)
  }

  const EPOCH: Date := Date(1970, 1, 1)

  const BEFORE_MONTH: seq<int> := [0, 31, 59, 90, 120, 151, 181, 212, 243, 273, 304, 334]

  /** Days before year y, counted from 0001-01-01. */
  function BeforeYear(y: int): int { 365 * (y - 1) + (y - 1) / 4 - (y - 1) / 100 + (y - 1) / 400 }

  /** Days from 1970-01-01 to a date. */
  function DayNumber(t: Date): int
    requires 1 <= t.month <= 12
  {
    BeforeYear(t.year) + BEFORE_MONTH[t.month - 1] + (if t.month > 2 && IsLeap(t.year) then 1 else 0) + t.day - 719163
  }

  // ------------------------------------------------------------------
  // The algorithm
  // ------------------------------------------------------------------

  /** Division as Rust has it: towards zero. */
  function Quot(a: int, b: int): int
    requires b > 0
  {
    if a >= 0 then a / b else -(-a / b)
  }

  function EraOf(z: int): int { Quot(if z >= 0 then z else z - 146096, 146097) }

  function YearOfEra(doe: int): int { (doe - doe / 1460 + doe / 36524 - doe / 146096) / 365 }

  /** Day `doy` of the year that starts on 1 March of year y. */
  function FromMarch(y: int, doy: int): Date {
    var mp := (5 * doy + 2) / 153;
    var m := if mp < 10 then mp + 3 else mp - 9;
    Date(if m <= 2 then y + 1 else y, m, doy - (153 * mp + 2) / 5 + 1)
  }

  /** Day `doe` of a 400-year era. */
  function CivilInEra(era: int, doe: int): Date {
    var yoe := YearOfEra(doe);
    FromMarch(yoe + era * 400, doe - (365 * yoe + yoe / 4 - yoe / 100))
  }

  function CivilFromDays(days: int): Date {
    var z := days + 719468;
    var era := EraOf(z);
    CivilInEra(era, z - era * 146097)
  }

  // ------------------------------------------------------------------
  // Correctness
  // ------------------------------------------------------------------

  /** Day numbers count the calendar's own steps. */
  lemma {:induction false} DayNumberSteps(t: Date)
    requires ValidDate(t)
    ensures ValidDate(NextDay(t)) && DayNumber(NextDay(t)) == DayNumber(t) + 1
    ensures DayNumber(EPOCH) == 0
  {
    BeforeYearSteps(t.year);
  }

  lemma {:induction false} BeforeYearSteps(y: int)
    ensures BeforeYear(y + 1) == BeforeYear(y) + (if IsLeap(y) then 366 else 365)
  {
    QuotientSteps(y, 4);
    QuotientSteps(y, 100);
    QuotientSteps(y, 400);
    assert y % 400 == 0 ==> y % 100 == 0 by { MultipleOfMultiple(y, 4, 100); }
    assert y % 100 == 0 ==> y % 4 == 0 by { MultipleOfMultiple(y, 25, 4); }
  }

  lemma {:induction false} QuotientSteps(y: int, k: int)
    requires k > 1
    ensures y / k == (y - 1) / k + (if y % k == 0 then 1 else 0)
  {
    var q, r := y / k, y % k;
    assert y == q * k + r;
    if r == 0 {
      QuotientOf(y - 1, k, q - 1, k - 1);
    } else {
      QuotientOf(y - 1, k, q, r - 1);
    }
  }

  lemma {:induction false} QuotientOf(n: int, k: int, q: int, r: int)
    requires k > 0 && 0 <= r < k && n == q * k + r
    ensures n / k == q && n % k == r
  {
    var d := n / k - q;
    assert d * k == r - n % k;
    Multiples(d, k);
  }

  lemma {:induction false} Multiples(d: int, k: int)
    requires k > 0
    ensures d >= 1 ==> d * k >= k
    ensures d <= -1 ==> d * k <= -k
  {
  }

  lemma {:induction false} MultipleOfMultiple(y: int, a: int, b: int)
    requires a > 0 && b > 0
    ensures y % (a * b) == 0 ==> y % b == 0
  {
    if y % (a * b) == 0 {
      var q := y / (a * b);
      assert y == (q * a) * b;
      QuotientOf(y, b, q * a, 0);
    }
  }

  /** Century, four-year group, year of the group and day of that year. */
  datatype Parts = Parts(c: int, q: int, p: int, r: int) {
    predicate Ok() {
      0 <= c < 4 && 0 <= q < 25 && 0 <= p < 4 && 0 <= r <= (if p == 3 && (q < 24 || c == 3) then 365 else 364)
    }
    function Year(): int { 100 * c + 4 * q + p }
    function Day(): int { 36524 * c + 1461 * q + 365 * p + r }
  }

  function Min(a: int, b: int): int { if a < b then a else b }

  lemma {:induction false} SplitEra(doe: int) returns (s: Parts)
    requires 0 <= doe < 146097
    ensures s.Ok() && s.Day() == doe
  {
    var c := Min(3, doe / 36524);
    var rest := doe - 36524 * c;
    var q := rest / 1461;
    var left := rest - 1461 * q;
    var p := Min(3, left / 365);
    s := Parts(c, q, p, left - 365 * p);
  }

  /** The corrections by 1460, 36524 and 146096 days find the year of the era. */
  lemma {:induction false} YearOfEraExact(s: Parts)
    requires s.Ok()
    ensures YearOfEra(s.Day()) == s.Year()
    ensures s.Day() == 365 * s.Year() + s.Year() / 4 - s.Year() / 100 + s.r
  {
    var doe := s.Day();
    var over := 24 * s.c + s.q + 365 * s.p + s.r;
    assert doe == 1460 * (25 * s.c + s.q) + over;
    var e := if over >= 1460 then 1 else 0;
    var f := if 1461 * s.q + 365 * s.p + s.r >= 36524 then 1 else 0;
    var g := if doe >= 146096 then 1 else 0;
    assert doe / 1460 == 25 * s.c + s.q + e;
    assert doe / 36524 == s.c + f;
    assert doe / 146096 == g;
    assert 0 <= s.r - e + f - g <= 364;
    assert doe - doe / 1460 + doe / 36524 - doe / 146096 == 365 * s.Year() + (s.r - e + f - g);
    assert s.Year() / 100 == s.c && s.Year() / 4 == 25 * s.c + s.q;
  }

  /** The March-based day formula yields real months and days. */
  lemma {:induction false} FromMarchExact(y: int, doy: int)
    requires 0 <= doy <= (if IsLeap(y + 1) then 365 else 364)
    ensures ValidDate(FromMarch(y, doy))
    ensures DayNumber(FromMarch(y, doy)) == BeforeYear(y + 1) + doy - 719468
  {
    MarchMonth(doy);
    BeforeYearSteps(y);
  }

  /** The month, counted from March, in which day `doy` falls. */
  lemma {:induction false} MarchMonth(doy: int)
    requires 0 <= doy <= 365
    ensures var mp := (5 * doy + 2) / 153; 0 <= mp <= 11 && (153 * mp + 2) / 5 <= doy < (153 * (mp + 1) + 2) / 5
  {
  }

  /** Rounding towards zero after the shift is rounding down. */
  lemma {:induction false} EraRoundsDown(z: int)
    ensures 0 <= z - EraOf(z) * 146097 < 146097
  {
  }

  lemma {:induction false} DayOfEra(s: Parts, era: int)
    requires s.Ok()
    ensures ValidDate(FromMarch(s.Year() + era * 400, s.r))
    ensures DayNumber(FromMarch(s.Year() + era * 400, s.r)) == era * 146097 + s.Day() - 719468
  {
    LeapOfEra(s, era);
    FromMarchExact(s.Year() + era * 400, s.r);
    YearOfEraExact(s);
    EraOffset(s.Year(), era);
  }

  lemma {:induction false} CivilOfParts(s: Parts, era: int)
    requires s.Ok()
    ensures CivilInEra(era, s.Day()) == FromMarch(s.Year() + era * 400, s.r)
  {
    YearOfEraExact(s);
  }

  /** Every day number is mapped to the date that has it. */
  lemma {:induction false} CivilInvertsDayNumber(z: int)
    ensures ValidDate(CivilFromDays(z)) && DayNumber(CivilFromDays(z)) == z
  {
    var era := EraOf(z + 719468);
    EraRoundsDown(z + 719468);
    var s := SplitEra(z + 719468 - era * 146097);
    CivilOfParts(s, era);
    DayOfEra(s, era);
  }

  lemma {:induction false} LeapOfEra(s: Parts, era: int)
    requires s.Ok()
    ensures s.r <= (if IsLeap(s.Year() + era * 400 + 1) then 365 else 364)
  {
    var y := s.Year() + era * 400 + 1;
    if s.p == 3 {
      QuotientOf(y, 4, 100 * era + 25 * s.c + s.q + 1, 0);
      if s.q < 24 {
        QuotientOf(y, 100, 4 * era + s.c, 4 * s.q + 4);
      } else if s.c == 3 {
        QuotientOf(y, 400, era + 1, 0);
      }
    }
  }

  /** 400 years have 146097 days. */
  lemma {:induction false} EraOffset(yoe: int, era: int)
    requires 0 <= yoe < 400
    ensures BeforeYear(yoe + era * 400 + 1) == era * 146097 + 365 * yoe + yoe / 4 - yoe / 100
  {
    var y := yoe + era * 400;
    QuotientOf(y, 4, 100 * era + yoe / 4, yoe % 4);
    QuotientOf(y, 100, 4 * era + yoe / 100, yoe % 100);
    QuotientOf(y, 400, era, yoe);
  }

  predicate Before(a: Date, b: Date) {
    a.year < b.year || (a.year == b.year && (a.month < b.month || (a.month == b.month && a.day < b.day)))
  }

  /** Calendar order is day-number order. */
  lemma {:induction false} DayNumberMonotone(a: Date, b: Date)
    requires ValidDate(a) && ValidDate(b) && Before(a, b)
    ensures DayNumber(a) < DayNumber(b)
  {
    if a.year < b.year {
      DayInYear(a);
      DayInYear(b);
      YearsMonotone(a.year, b.year);
    }
  }

  lemma {:induction false} DayInYear(t: Date)
    requires ValidDate(t)
    ensures BeforeYear(t.year) - 719162 <= DayNumber(t) < BeforeYear(t.year + 1) - 719162
  {
    BeforeYearSteps(t.year);
  }

  lemma {:induction false} YearsMonotone(y: int, later: int)
    requires y < later
    ensures BeforeYear(y + 1) <= BeforeYear(later)
    decreases later - y
  {
    if y + 1 == later {
    } else {
      YearsMonotone(y, later - 1);
      BeforeYearSteps(later - 1);
    }
  }

  /** Days-from-civil followed by civil-from-days is the identity on valid dates. */
  lemma {:induction false} CivilOfDayNumber(t: Date)
    requires ValidDate(t)
    ensures CivilFromDays(DayNumber(t)) == t
  {
    var u := CivilFromDays(DayNumber(t));
    CivilInvertsDayNumber(DayNumber(t));
    if Before(u, t) { DayNumberMonotone(u, t); }
    if Before(t, u) { DayNumberMonotone(t, u); }
  }

  /** From each day the algorithm goes on to the next calendar day. */
  lemma {:induction false} CivilFollowsCalendar(z: int)
    ensures CivilFromDays(z + 1) == NextDay(CivilFromDays(z))
  {
    CivilInvertsDayNumber(z);
    DayAfter(CivilFromDays(z), z + 1);
  }

  lemma {:induction false} DayAfter(t: Date, next: int)
    requires ValidDate(t) && DayNumber(t) + 1 == next
    ensures CivilFromDays(next) == NextDay(t)
  {
    DayNumberSteps(t);
    var u := NextDay(t);
    CivilOfDayNumber(u);
  }

  /** It starts at the epoch. */
  lemma {:induction false} CivilOfEpoch()
    ensures CivilFromDays(0) == EPOCH
  {
    CivilOfDayNumber(EPOCH);
  }

  /** For i64 timestamps no intermediate value leaves i64, u64 or u32. */
  lemma {:induction false} NoOverflow(unixSecs: int)
    requires -0x8000_0000_0000_0000 <= unixSecs < 0x8000_0000_0000_0000
    ensures var z := unixSecs / 86400 + 719468; var era := EraOf(z);
      -0x4000_0000_0000_0000 < z - 146096 < z < 0x4000_0000_0000_0000 && 0 <= z - era * 146097 < 146097
      && -0x4000_0000_0000_0000 < era * 146097 < 0x4000_0000_0000_0000
    ensures -0x1_0000_0000_0000 < CivilFromDays(unixSecs / 86400).year < 0x1_0000_0000_0000
  {
    var z := unixSecs / 86400 + 719468;
    var era := EraOf(z);
    EraRoundsDown(z);
    var s := SplitEra(z - era * 146097);
    YearOfEraExact(s);
  }
}
