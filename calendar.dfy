/** The part of Python's `datetime.date` the address book relies on: the
    proleptic Gregorian calendar from year 1, ordinal day numbers (which give
    date subtraction and `weekday()`), adding days, `replace(year=...)`, and
    the `DD-MM-YYYY` text form read by `strptime` and written by `strftime`. */
module Calendar {
  import opened Wrappers
  import opened Digits

  /** Python's `date.min.year` and `date.max.year`. */
  const MinYear := 1
  const MaxYear := 9999

  datatype Date = Date(year: int, month: int, day: int)

  predicate IsLeap(y: int) {
    y % 4 == 0 && (y % 100 != 0 || y % 400 == 0)
  }

  function DaysInMonth(y: int, m: int): (n: int)
    requires 1 <= m <= 12
    ensures 28 <= n <= 31
    ensures n == 29 <==> m == 2 && IsLeap(y)
  {
    if m == 2 then (if IsLeap(y) then 29 else 28)
    else if m == 4 || m == 6 || m == 9 || m == 11 then 30
    else 31
  }

  /** A real calendar date in year 1 or later (no upper bound). */
  predicate ValidDate(d: Date) {
    MinYear <= d.year && 1 <= d.month <= 12 && 1 <= d.day <= DaysInMonth(d.year, d.month)
  }

  /** A date Python's `date` type can represent. */
  predicate InRange(d: Date) {
    ValidDate(d) && d.year <= MaxYear
  }

  /** Days in the years before `y`. */
  function DaysBeforeYear(y: int): (n: int)
    requires y >= 1
  {
    var p := y - 1;
    365 * p + p / 4 - p / 100 + p / 400
  }

  /** Days of a common year before the first of each month. */
  const CumulativeDays: seq<int> := [0, 31, 59, 90, 120, 151, 181, 212, 243, 273, 304, 334]

  /** Days of year `y` before the first of month `m`. */
  function DaysBeforeMonth(y: int, m: int): (n: int)
    requires 1 <= m <= 12
  {
    CumulativeDays[m - 1] + (if m > 2 && IsLeap(y) then 1 else 0)
  }

  /** `date.toordinal()`: 1 January of year 1 is day 1. */
  function DayNumber(d: Date): (n: int)
    requires ValidDate(d)
  {
    DaysBeforeYear(d.year) + DaysBeforeMonth(d.year, d.month) + d.day
  }

  /** The day number of a date lies among those of its own year. */
  lemma DayInYear(d: Date)
    requires ValidDate(d)
    ensures DaysBeforeYear(d.year) < DayNumber(d)
    ensures DayNumber(d) <= DaysBeforeYear(d.year) + (if IsLeap(d.year) then 366 else 365)
  {
  }

  /** `date.weekday()`: Monday is 0 and Sunday is 6. */
  function Weekday(d: Date): (w: int)
    requires ValidDate(d)
    ensures 0 <= w < 7
  {
    (DayNumber(d) + 6) % 7
  }

  /** One more year before `y + 1` than before `y`: 366 days when `y` is leap. */
  lemma YearLength(y: int)
    requires y >= 1
    ensures DaysBeforeYear(y + 1) == DaysBeforeYear(y) + (if IsLeap(y) then 366 else 365)
  {
    var p := y - 1;
    DivStep(p, 4);
    DivStep(p, 100);
    DivStep(p, 400);
  }

  lemma DivStep(p: int, k: int)
    requires p >= 0 && (k == 4 || k == 100 || k == 400)
    ensures (p + 1) / k == p / k + (if (p + 1) % k == 0 then 1 else 0)
  {
  }

  lemma MonthLength(y: int, m: int)
    requires 1 <= m < 12
    ensures DaysBeforeMonth(y, m + 1) == DaysBeforeMonth(y, m) + DaysInMonth(y, m)
  {
  }

  /** The calendar day after `d`. */
  function NextDay(d: Date): (r: Date)
    requires ValidDate(d)
    ensures ValidDate(r) && DayNumber(r) == DayNumber(d) + 1
    ensures r.year == d.year || (d.month == 12 && d.day == 31 && r == Date(d.year + 1, 1, 1))
  {
    if d.day < DaysInMonth(d.year, d.month) then
      Date(d.year, d.month, d.day + 1)
    else if d.month < 12 then
      MonthLength(d.year, d.month);
      Date(d.year, d.month + 1, 1)
    else
      YearLength(d.year);
      Date(d.year + 1, 1, 1)
  }

  /** `d + timedelta(days=n)` for `n >= 0`. */
  function AddDays(d: Date, n: nat): (r: Date)
    requires ValidDate(d)
    ensures ValidDate(r) && DayNumber(r) == DayNumber(d) + n
    decreases n
  {
    if n == 0 then d else AddDays(NextDay(d), n - 1)
  }

  lemma {:induction false} ModShift(a: int, q: nat)
    ensures (a + 7 * q) % 7 == a % 7
    decreases q
  {
    if q > 0 {
      ModShift(a, q - 1);
      assert a + 7 * q == (a + 7 * (q - 1)) + 7;
    }
  }

  lemma ModAfter(x: int, n: nat)
    requires x >= 0
    ensures (x % 7 + n) % 7 == (x + n) % 7
  {
    var q := x / 7;
    assert x + n == (x % 7 + n) + 7 * q;
    ModShift(x % 7 + n, q);
  }

  /** The weekday `n` days after weekday `w`. */
  function Advance(w: int, n: int): (r: int) {
    (w + n) % 7
  }

  /** `n` days after `d` the weekday has advanced by `n` modulo 7. */
  lemma WeekdayAfter(d: Date, n: nat)
    requires ValidDate(d)
    ensures Weekday(AddDays(d, n)) == Advance(Weekday(d), n)
  {
    ModAfter(DayNumber(d) + 6, n);
  }

  /** 30 and 31 December 9999, the last days Python can represent, are a
      Thursday and a Friday. */
  lemma LastDaysOfMaxYear()
    ensures Weekday(Date(MaxYear, 12, 30)) == 3
    ensures Weekday(Date(MaxYear, 12, 31)) == 4
  {
  }

  /** `d.replace(year=y)`: fails exactly for 29 February moved into a common year. */
  function ReplaceYear(d: Date, y: int): (r: Option<Date>)
    requires ValidDate(d) && MinYear <= y <= MaxYear
    ensures r.None? <==> d.month == 2 && d.day == 29 && !IsLeap(y)
    ensures r.Some? ==> InRange(r.value) && r.value == Date(y, d.month, d.day)
  {
    var moved := Date(y, d.month, d.day);
    if ValidDate(moved) then Some(moved) else None
  }

  // ----- The DD-MM-YYYY text form -----

  /** Two digits at positions `i` and `i + 1` of `s`, read as a number. */
  function Digits2(s: string, i: nat): (n: int)
    requires i + 1 < |s| && IsDigit(s[i]) && IsDigit(s[i + 1])
    ensures 0 <= n <= 99
  {
    10 * DigitValue(s[i]) + DigitValue(s[i + 1])
  }

  /** Four digits starting at position `i` of `s`, read as a number. */
  function Digits4(s: string, i: nat): (n: int)
    requires i + 3 < |s| && forall k :: i <= k < i + 4 ==> IsDigit(s[k])
    ensures 0 <= n <= 9999
  {
    100 * Digits2(s, i) + Digits2(s, i + 2)
  }

  /** Ten characters `DD-MM-YYYY`: digits, with `-` at positions 2 and 5. */
  predicate IsDatePattern(s: string) {
    |s| == 10 && s[2] == '-' && s[5] == '-'
    && forall k :: 0 <= k < 10 && k != 2 && k != 5 ==> IsDigit(s[k])
  }

  /** `datetime.strptime(s, '%d-%m-%Y').date()`, for two-digit day and month. */
  function ParseDate(s: string): (r: Option<Date>)
    ensures r.Some? ==> InRange(r.value)
  {
    if !IsDatePattern(s) then None
    else
      var d := Date(Digits4(s, 6), Digits2(s, 3), Digits2(s, 0));
      if ValidDate(d) then Some(d) else None
  }

  function Pad2(n: int): (s: string)
    requires 0 <= n <= 99
  {
    [DigitChar(n / 10), DigitChar(n % 10)]
  }

  function Pad4(n: int): (s: string)
    requires 0 <= n <= 9999
  {
    Pad2(n / 100) + Pad2(n % 100)
  }

  /** `d.strftime('%d-%m-%Y')`, zero-padded. */
  function FormatDate(d: Date): (s: string)
    requires InRange(d)
    ensures IsDatePattern(s)
  {
    Pad2(d.day) + "-" + Pad2(d.month) + "-" + Pad4(d.year)
  }

  /** Formatting a date and parsing the text gives the date back. */
  lemma ParseFormat(d: Date)
    requires InRange(d)
    ensures ParseDate(FormatDate(d)) == Some(d)
  {
    var s := FormatDate(d);
    assert Digits2(s, 0) == d.day;
    assert Digits2(s, 3) == d.month;
    assert Digits2(s, 6) == d.year / 100;
    assert Digits2(s, 8) == d.year % 100;
  }

  /** Every accepted text is the formatting of the date it denotes, so the
      two-digit form is a one-to-one picture of the valid dates. */
  lemma FormatParse(s: string)
    requires ParseDate(s).Some?
    ensures FormatDate(ParseDate(s).value) == s
  {
    var d := ParseDate(s).value;
    Pad2OfDigits2(s, 0);
    Pad2OfDigits2(s, 3);
    Pad2OfDigits2(s, 6);
    Pad2OfDigits2(s, 8);
    assert Digits4(s, 6) / 100 == Digits2(s, 6) && Digits4(s, 6) % 100 == Digits2(s, 8);
    assert s == s[0..2] + "-" + s[3..5] + "-" + s[6..8] + s[8..10];
  }

  lemma Pad2OfDigits2(s: string, i: nat)
    requires i + 1 < |s| && IsDigit(s[i]) && IsDigit(s[i + 1])
    ensures Pad2(Digits2(s, i)) == s[i..i + 2]
  {
    var n := Digits2(s, i);
    assert n / 10 == DigitValue(s[i]) && n % 10 == DigitValue(s[i + 1]);
    DigitCharOfValue(s[i]);
    DigitCharOfValue(s[i + 1]);
  }

  /** The texts `ParseDate` accepts are exactly the formatted dates in range. */
  lemma ParseAcceptsFormatted(s: string)
    ensures ParseDate(s).Some? <==> exists d :: InRange(d) && FormatDate(d) == s
  {
    if ParseDate(s).Some? {
      FormatParse(s);
    } else if exists d :: InRange(d) && FormatDate(d) == s {
      var d :| InRange(d) && FormatDate(d) == s;
      ParseFormat(d);
    }
  }

  /** Earlier months of a year start at least a whole month earlier. */
  lemma {:induction false} MonthsBefore(y: int, m1: int, m2: int)
    requires 1 <= m1 < m2 <= 12
    ensures DaysBeforeMonth(y, m1) + DaysInMonth(y, m1) <= DaysBeforeMonth(y, m2)
    decreases m2 - m1
  {
    MonthLength(y, m1);
    if m1 + 1 < m2 {
      MonthsBefore(y, m1 + 1, m2);
    }
  }

  /** Within one year, day numbers follow the calendar order of (month, day). */
  lemma SameYearOrder(d1: Date, d2: Date)
    requires ValidDate(d1) && ValidDate(d2) && d1.year == d2.year
    requires d1.month < d2.month || (d1.month == d2.month && d1.day < d2.day)
    ensures DayNumber(d1) < DayNumber(d2)
  {
    if d1.month < d2.month {
      MonthsBefore(d1.year, d1.month, d2.month);
    }
  }
}
