/**
 Civil dates as Go's time package computes them: the proleptic Gregorian calendar, day numbers,
 and time.Date's normalisation of out-of-range months and days.  Times of day play no part here.
 */
module Calendar {

  datatype Date = Date(year: int, month: int, day: int)

  predicate Leap(y: int) {
    y % 4 == 0 && (y % 100 != 0 || y % 400 == 0)
  }

  function DaysIn(y: int, m: int): (n: int)
    requires 1 <= m <= 12
    ensures 28 <= n <= 31
  {
    if m == 2 then (if Leap(y) then 29 else 28)
    else if m == 4 || m == 6 || m == 9 || m == 11 then 30
    else 31
  }

  predicate Valid(d: Date) {
    1 <= d.month <= 12 && 1 <= d.day <= DaysIn(d.year, d.month)
  }

  function YearLength(y: int): int {
    if Leap(y) then 366 else 365
  }

  /** A date that exists. */
  type Day = d: Date | Valid(d) witness Date(1970, 1, 1)

  /** Days before the first of January, counted from 0001-01-01. */
  function DaysBeforeYear(y: int): int
    decreases if y > 1 then y - 1 else 1 - y
  {
    if y == 1 then 0
    else if y > 1 then DaysBeforeYear(y - 1) + YearLength(y - 1)
    else DaysBeforeYear(y + 1) - YearLength(y)
  }

  function DaysBeforeMonth(y: int, m: int): int
    requires 1 <= m <= 12
  {
    var leap := if m > 2 && Leap(y) then 1 else 0;
    [0, 31, 59, 90, 120, 151, 181, 212, 243, 273, 304, 334][m-1] + leap
  }

  /** The day number of a date; the day may lie outside its month. */
  function DayNumber(d: Date): int
    requires 1 <= d.month <= 12
  {
    DaysBeforeYear(d.year) + DaysBeforeMonth(d.year, d.month) + d.day - 1
  }

  /** The year a day number falls in, looked for from year `y` on. */
  function YearOf(n: int, y: int): (r: int)
    ensures DaysBeforeYear(r) <= n < DaysBeforeYear(r + 1)
    decreases
      if n < DaysBeforeYear(y) then DaysBeforeYear(y) - n
      else if n < DaysBeforeYear(y + 1) then 0
      else n - DaysBeforeYear(y + 1) + 1
  {
    YearStep(y - 1);
    YearStep(y);
    YearStep(y + 1);
    if n < DaysBeforeYear(y) then YearOf(n, y - 1)
    else if n < DaysBeforeYear(y + 1) then y
    else YearOf(n, y + 1)
  }

  function MonthOfDay(y: int, yday: int, m: int): (r: int)
    requires 1 <= m <= 12
    ensures m <= r <= 12
    decreases 12 - m
  {
    if m == 12 || yday < DaysBeforeMonth(y, m + 1) then m else MonthOfDay(y, yday, m + 1)
  }

  function FromDayNumber(n: int): Date {
    var y := YearOf(n, 1970);
    var yday := n - DaysBeforeYear(y);
    var m := MonthOfDay(y, yday, 1);
    Date(y, m, yday - DaysBeforeMonth(y, m) + 1)
  }

  /** The month carried into the year; the day is left as it is. */
  function Carried(year: int, month: int, day: int): (r: Date)
    ensures 1 <= r.month <= 12
  {
    Date(year + (month - 1) / 12, (month - 1) % 12 + 1, day)
  }

  /** time.Date in UTC: months overflow into years, then days into months. */
  function MakeDate(year: int, month: int, day: int): Date {
    FromDayNumber(DayNumber(Carried(year, month, day)))
  }

  function AddDate(d: Date, years: int, months: int, days: int): Date {
    MakeDate(d.year + years, d.month + months, d.day + days)
  }

  /** Months counted from year 0. */
  function MonthIndex(d: Date): int {
    12 * d.year + d.month - 1
  }

  function MonthStart(index: int): Date {
    Date(index / 12, index % 12 + 1, 1)
  }

  /** date_trunc('month', d), and truncateToMonth. */
  function FirstOfMonth(d: Date): Date {
    Date(d.year, d.month, 1)
  }

  predicate Before(a: Date, b: Date)
    requires 1 <= a.month <= 12 && 1 <= b.month <= 12
  {
    DayNumber(a) < DayNumber(b)
  }

  /******* The layouts 2006-01 and 2006-01-02 *******/

  datatype Parsed = Bad | Good(date: Date)

  predicate Digits(s: string) {
    forall i | 0 <= i < |s| :: '0' <= s[i] <= '9'
  }

  function DigitValue(c: char): int {
    c as int - '0' as int
  }

  function Number(s: string): (n: int)
    requires Digits(s)
    ensures n >= 0
  {
    if s == "" then 0 else 10 * Number(s[..|s|-1]) + DigitValue(s[|s|-1])
  }

  function DigitChar(n: int): (c: char)
    requires 0 <= n <= 9
    ensures '0' <= c <= '9' && DigitValue(c) == n
  {
    ('0' as int + n) as char
  }

  /** `n` in exactly `width` decimal digits. */
  function Padded(n: nat, width: nat): (s: string)
    ensures |s| == width && Digits(s)
  {
    if width == 0 then "" else Padded(n / 10, width - 1) + [DigitChar(n % 10)]
  }

  predicate FitsWidth(n: nat, width: nat) {
    if width == 0 then n == 0 else FitsWidth(n / 10, width - 1)
  }

  lemma {:induction false} SmallerFits(m: nat, n: nat, width: nat)
    requires m <= n && FitsWidth(n, width)
    ensures FitsWidth(m, width)
    decreases width
  {
    if width > 0 {
      SmallerFits(m / 10, n / 10, width - 1);
    }
  }

  lemma {:induction false} PaddedDiffers(m: nat, n: nat, width: nat)
    requires FitsWidth(m, width) && FitsWidth(n, width) && m != n
    ensures Padded(m, width) != Padded(n, width)
    decreases width
  {
    if width > 0 && m % 10 == n % 10 {
      PaddedDiffers(m / 10, n / 10, width - 1);
      assert Padded(m, width)[..width-1] == Padded(m / 10, width - 1);
      assert Padded(n, width)[..width-1] == Padded(n / 10, width - 1);
    } else if width > 0 {
      assert Padded(m, width)[width-1] == DigitChar(m % 10) && Padded(n, width)[width-1] == DigitChar(n % 10);
      assert DigitValue(DigitChar(m % 10)) == m % 10 && DigitValue(DigitChar(n % 10)) == n % 10;
    }
  }

  predicate MonthText(s: string) {
    |s| == 7 && Digits(s[..4]) && s[4] == '-' && Digits(s[5..]) && 1 <= Number(s[5..]) <= 12
  }

  /** time.Parse("2006-01", s): exactly four year digits, a hyphen and a two-digit month. */
  function ParseMonth(s: string): (r: Parsed)
    ensures r.Good? ==> Valid(r.date) && r.date.day == 1
  {
    if MonthText(s) then Good(Date(Number(s[..4]), Number(s[5..]), 1)) else Bad
  }

  /** Format("2006-01") for the years that have four digits. */
  function FormatMonth(d: Date): string
    requires 0 <= d.year <= 9999 && 1 <= d.month <= 12
  {
    Padded(d.year, 4) + "-" + Padded(d.month, 2)
  }

  predicate DayText(s: string) {
    && |s| == 10 && MonthText(s[..7]) && s[7] == '-' && Digits(s[8..])
    && 1 <= Number(s[8..]) <= DaysIn(Number(s[..7][..4]), Number(s[..7][5..]))
  }

  /** time.Parse("2006-01-02", s), which rejects a day the month does not have. */
  function ParseDay(s: string): (r: Parsed)
    ensures r.Good? ==> Valid(r.date) && 0 <= r.date.year <= 9999
  {
    if DayText(s) then
      NumberBound(s[..7][..4]);
      Good(ParseMonth(s[..7]).date.(day := Number(s[8..])))
    else Bad
  }

  lemma NumberBound(s: string)
    requires |s| == 4 && Digits(s)
    ensures Number(s) <= 9999
  {
    assert Number(s[..3]) <= 999 by {
      assert Number(s[..3][..2]) <= 99 by {
        assert Number(s[..3][..2][..1]) <= 9 by {
          assert s[..3][..2][..1][..0] == "";
        }
      }
    }
  }

  lemma LastDigit(n: int, c: char)
    requires n >= 0 && '0' <= c <= '9'
    ensures var m := 10 * n + DigitValue(c); m / 10 == n && 0 <= m % 10 <= 9 && DigitChar(m % 10) == c
  {
    assert (10 * n + DigitValue(c)) % 10 == DigitValue(c);
  }

  lemma {:induction false} PaddedNumber(s: string)
    requires Digits(s)
    ensures Padded(Number(s), |s|) == s
  {
    if s != "" {
      var init, last := s[..|s|-1], s[|s|-1];
      PaddedNumber(init);
      LastDigit(Number(init), last);
      assert s == init + [last];
    }
  }

  lemma {:induction false} NumberFits(s: string)
    requires Digits(s)
    ensures FitsWidth(Number(s), |s|)
  {
    if s != "" {
      NumberFits(s[..|s|-1]);
      LastDigit(Number(s[..|s|-1]), s[|s|-1]);
    }
  }

  lemma {:induction false} NumberPadded(n: nat, width: nat)
    requires FitsWidth(n, width)
    ensures Number(Padded(n, width)) == n
    decreases width
  {
    if width > 0 {
      NumberPadded(n / 10, width - 1);
      assert Padded(n, width)[..width-1] == Padded(n / 10, width - 1);
    }
  }

  lemma YearFits(n: nat)
    requires n <= 9999
    ensures FitsWidth(n, 4)
  {
    assert FitsWidth(n / 10 / 10 / 10 / 10, 0);
    assert FitsWidth(n / 10 / 10 / 10, 1);
    assert FitsWidth(n / 10 / 10, 2);
    assert FitsWidth(n / 10, 3);
  }

  /** A month that parses is printed back as the text it came from. */
  lemma MonthTextRoundTrip(s: string)
    requires ParseMonth(s).Good?
    ensures var d := ParseMonth(s).date; Valid(d) && 0 <= d.year <= 9999 && FormatMonth(d) == s
  {
    NumberBound(s[..4]);
    PaddedNumber(s[..4]);
    PaddedNumber(s[5..]);
    assert s == s[..4] + "-" + s[5..];
  }

  /** The first of every month of a four-digit year comes back from its text. */
  lemma MonthParses(d: Day)
    requires 0 <= d.year <= 9999
    ensures ParseMonth(FormatMonth(d)) == Good(FirstOfMonth(d))
  {
    var s := FormatMonth(d);
    YearFits(d.year);
    NumberPadded(d.year, 4);
    assert FitsWidth(d.month / 10 / 10, 0) && FitsWidth(d.month / 10, 1);
    NumberPadded(d.month, 2);
    assert s[..4] == Padded(d.year, 4) && s[5..] == Padded(d.month, 2);
  }

  /** Format("2006-01-02") for the years that have four digits. */
  function FormatDay(d: Day): string
    requires 0 <= d.year <= 9999
  {
    FormatMonth(d) + "-" + Padded(d.day, 2)
  }

  /** A day that parses is printed back as the text it came from, and every day of a four-digit year is accepted. */
  lemma DayTextRoundTrip(s: string, d: Day)
    requires 0 <= d.year <= 9999
    ensures ParseDay(s).Good? ==> FormatDay(ParseDay(s).date) == s
    ensures ParseDay(FormatDay(d)) == Good(d)
  {
    if ParseDay(s).Good? {
      MonthTextRoundTrip(s[..7]);
      PaddedNumber(s[8..]);
      assert s == s[..7] + "-" + s[8..];
    }
    DayParses(d);
  }

  lemma DayParses(d: Day)
    requires 0 <= d.year <= 9999
    ensures ParseDay(FormatDay(d)) == Good(d)
  {
    var s := FormatDay(d);
    MonthParses(d);
    assert s[..7] == FormatMonth(d) && s[8..] == Padded(d.day, 2);
    assert FitsWidth(d.day / 10 / 10, 0) && FitsWidth(d.day / 10, 1);
    NumberPadded(d.day, 2);
    assert ParseMonth(s[..7]) == Good(Date(Number(s[..7][..4]), Number(s[..7][5..]), 1));
  }

  /******* Day numbers and dates are in bijection *******/

  lemma YearStep(y: int)
    ensures DaysBeforeYear(y + 1) == DaysBeforeYear(y) + YearLength(y)
  {
  }

  lemma MonthStep(y: int, m: int)
    requires 1 <= m <= 12
    ensures m < 12 ==> DaysBeforeMonth(y, m + 1) == DaysBeforeMonth(y, m) + DaysIn(y, m)
    ensures m == 12 ==> DaysBeforeMonth(y, m) + DaysIn(y, m) == YearLength(y)
  {
  }

  lemma MonthOfDayMeaning(y: int, yday: int, m: int)
    requires 1 <= m <= 12
    ensures var r := MonthOfDay(y, yday, m);
      && m <= r <= 12
      && (DaysBeforeMonth(y, m) <= yday < YearLength(y) ==>
            DaysBeforeMonth(y, r) <= yday < DaysBeforeMonth(y, r) + DaysIn(y, r))
    decreases 12 - m
  {
    MonthStep(y, m);
    if !(m == 12 || yday < DaysBeforeMonth(y, m + 1)) {
      MonthOfDayMeaning(y, yday, m + 1);
    }
  }

  lemma DayNumberOfFrom(n: int)
    ensures Valid(FromDayNumber(n)) && DayNumber(FromDayNumber(n)) == n
  {
    var y := YearOf(n, 1970);
    YearStep(y);
    MonthOfDayMeaning(y, n - DaysBeforeYear(y), 1);
  }

  lemma {:induction false} YearsApart(a: int, b: int)
    requires a <= b
    ensures DaysBeforeYear(a) + 365 * (b - a) <= DaysBeforeYear(b)
    decreases b - a
  {
    if a < b {
      YearStep(a);
      YearsApart(a + 1, b);
    }
  }

  lemma {:induction false} MonthsApart(y: int, m: int, n: int)
    requires 1 <= m < n <= 12
    ensures DaysBeforeMonth(y, m) + DaysIn(y, m) <= DaysBeforeMonth(y, n)
    decreases n - m
  {
    MonthStep(y, m);
    if m + 1 < n {
      MonthsApart(y, m + 1, n);
    }
  }

  lemma DayOfYear(d: Date)
    requires Valid(d)
    ensures DaysBeforeYear(d.year) <= DayNumber(d) < DaysBeforeYear(d.year + 1)
  {
    YearStep(d.year);
    MonthStep(d.year, 12);
    if d.month < 12 { MonthsApart(d.year, d.month, 12); }
    if d.month > 1 { MonthsApart(d.year, 1, d.month); }
  }

  /** Dates order by year, then month, then day. */
  ghost predicate Earlier(a: Date, b: Date) {
    a.year < b.year || (a.year == b.year && (a.month < b.month || (a.month == b.month && a.day < b.day)))
  }

  lemma EarlierIsBefore(a: Date, b: Date)
    requires Valid(a) && Valid(b) && Earlier(a, b)
    ensures DayNumber(a) < DayNumber(b)
  {
    if a.year < b.year {
      DayOfYear(a);
      DayOfYear(b);
      YearsApart(a.year + 1, b.year);
    } else if a.month < b.month {
      MonthsApart(a.year, a.month, b.month);
    }
  }

  lemma DayNumbersOrderDates(a: Date, b: Date)
    requires Valid(a) && Valid(b)
    ensures DayNumber(a) < DayNumber(b) <==> Earlier(a, b)
    ensures DayNumber(a) == DayNumber(b) <==> a == b
  {
    if Earlier(a, b) {
      EarlierIsBefore(a, b);
    } else if Earlier(b, a) {
      EarlierIsBefore(b, a);
    }
  }

  /** Every valid date comes back from its day number, and every day number from its date. */
  lemma CivilRoundTrip(d: Date, n: int)
    ensures Valid(d) ==> FromDayNumber(DayNumber(d)) == d
    ensures Valid(FromDayNumber(n)) && DayNumber(FromDayNumber(n)) == n
  {
    DayNumberOfFrom(n);
    if Valid(d) {
      DayNumberOfFrom(DayNumber(d));
      DayNumbersOrderDates(d, FromDayNumber(DayNumber(d)));
    }
  }

  lemma SameDate(year: int, month: int, day: int, year': int, month': int, day': int)
    requires year == year' && month == month' && day == day'
    ensures MakeDate(year, month, day) == MakeDate(year', month', day')
  {
  }

  lemma AddDateIs(d: Date, months: int, days: int, month: int, day: int)
    requires month == d.month + months && day == d.day + days
    ensures AddDate(d, 0, months, days) == MakeDate(d.year, month, day)
  {
    SameDate(d.year + 0, d.month + months, d.day + days, d.year, month, day);
  }

  lemma MadeFromDayNumber(year: int, month: int, day: int, d: Date)
    requires Valid(d) && DayNumber(Carried(year, month, day)) == DayNumber(d)
    ensures MakeDate(year, month, day) == d
  {
    CivilRoundTrip(d, 0);
  }

  lemma CarriedMonth(year: int, month: int)
    ensures Carried(year, month, 1) == MonthStart(12 * year + month - 1)
  {
    var i := 12 * year + month - 1;
    assert (month - 1) % 12 == i % 12 && year + (month - 1) / 12 == i / 12;
  }

  lemma MakeMonth(year: int, month: int)
    ensures MakeDate(year, month, 1) == MonthStart(12 * year + month - 1)
  {
    CarriedMonth(year, month);
    MonthStartIndex(12 * year + month - 1);
    CivilRoundTrip(MonthStart(12 * year + month - 1), 0);
  }

  lemma MonthStartIndex(i: int)
    ensures MonthIndex(MonthStart(i)) == i && Valid(MonthStart(i))
  {
  }

  /** Moving the first of a month by whole months lands on the first of that month. */
  lemma AddMonths(d: Date, months: int)
    requires Valid(d) && d.day == 1
    ensures var r := AddDate(d, 0, months, 0); Valid(r) && r == MonthStart(MonthIndex(d) + months)
  {
    var month := d.month + months;
    AddDateIs(d, months, 0, month, 1);
    MakeMonth(d.year, month);
    MonthStartIndex(MonthIndex(d) + months);
    assert 12 * d.year + month - 1 == MonthIndex(d) + months;
  }

  lemma DayZero(d: Date)
    requires Valid(d) && d.day == 1
    ensures DayNumber(Carried(d.year, d.month + 1, 0)) == DayNumber(Date(d.year, d.month, DaysIn(d.year, d.month)))
  {
    var next := if d.month == 12 then Date(d.year + 1, 1, 0) else Date(d.year, d.month + 1, 0);
    assert Carried(d.year, d.month + 1, 0) == next;
    MonthStep(d.year, d.month);
    YearStep(d.year);
  }

  /** The day before the first of the next month is the true last day of the month. */
  lemma LastDayOfMonth(d: Date)
    requires Valid(d) && d.day == 1
    ensures AddDate(d, 0, 1, -1) == Date(d.year, d.month, DaysIn(d.year, d.month))
  {
    var month := d.month + 1;
    AddDateIs(d, 1, -1, month, 0);
    DayZero(d);
    MadeFromDayNumber(d.year, month, 0, Date(d.year, d.month, DaysIn(d.year, d.month)));
  }

  /** Months order as their indexes do. */
  lemma MonthIndexOrder(a: Date, b: Date)
    requires Valid(a) && Valid(b)
    ensures MonthIndex(a) < MonthIndex(b) ==> DayNumber(a) < DayNumber(b)
    ensures MonthIndex(a) < MonthIndex(b) <==> DayNumber(FirstOfMonth(a)) < DayNumber(FirstOfMonth(b))
    ensures MonthIndex(a) == MonthIndex(b) <==> FirstOfMonth(a) == FirstOfMonth(b)
  {
    DayNumbersOrderDates(a, b);
    DayNumbersOrderDates(FirstOfMonth(a), FirstOfMonth(b));
  }

  /******* The calendar in closed form *******/

  /** Days before the year by the leap rules alone: every fourth year, no hundredth, every four-hundredth. */
  function ClosedYears(y: int): int {
    365 * (y - 1) + (y - 1) / 4 - (y - 1) / 100 + (y - 1) / 400
  }

  lemma By4(n: int, q: int, r: int)
    requires n == 4 * q + r && 0 <= r < 4
    ensures n / 4 == q && n % 4 == r
  {
    assert n == 4 * (n / 4) + n % 4;
  }

  lemma By100(n: int, q: int, r: int)
    requires n == 100 * q + r && 0 <= r < 100
    ensures n / 100 == q && n % 100 == r
  {
    assert n == 100 * (n / 100) + n % 100;
  }

  lemma By400(n: int, q: int, r: int)
    requires n == 400 * q + r && 0 <= r < 400
    ensures n / 400 == q && n % 400 == r
  {
    assert n == 400 * (n / 400) + n % 400;
  }

  lemma Multiples(y: int)
    ensures y / 4 - (y - 1) / 4 == if y % 4 == 0 then 1 else 0
    ensures y / 100 - (y - 1) / 100 == if y % 100 == 0 then 1 else 0
    ensures y / 400 - (y - 1) / 400 == if y % 400 == 0 then 1 else 0
  {
    if y % 4 == 0 { By4(y - 1, y / 4 - 1, 3); } else { By4(y - 1, y / 4, y % 4 - 1); }
    if y % 100 == 0 { By100(y - 1, y / 100 - 1, 99); } else { By100(y - 1, y / 100, y % 100 - 1); }
    if y % 400 == 0 { By400(y - 1, y / 400 - 1, 399); } else { By400(y - 1, y / 400, y % 400 - 1); }
  }

  lemma MultiplesOfMultiples(y: int)
    ensures (y % 100 == 0 ==> y % 4 == 0) && (y % 400 == 0 ==> y % 100 == 0)
  {
    if y % 100 == 0 { By4(y, 25 * (y / 100), 0); }
    if y % 400 == 0 { By100(y, 4 * (y / 400), 0); }
  }

  lemma ClosedYearStep(y: int)
    ensures ClosedYears(y + 1) == ClosedYears(y) + YearLength(y)
  {
    Multiples(y);
    MultiplesOfMultiples(y);
    assert y + 1 - 1 == y;
  }

  lemma {:induction false} YearsAreClosed(y: int)
    ensures DaysBeforeYear(y) == ClosedYears(y)
    decreases if y > 1 then y - 1 else 1 - y
  {
    if y > 1 {
      ClosedYearStep(y - 1);
      YearsAreClosed(y - 1);
    } else if y < 1 {
      ClosedYearStep(y);
      YearsAreClosed(y + 1);
    }
  }

  lemma MonthsAreClosed(y: int, m: int)
    requires 1 <= m <= 12
    ensures DaysBeforeMonth(y, m)
      == (367 * m - 362) / 12 - if m <= 2 then 0 else if y % 400 == 0 || (y % 4 == 0 && y % 100 != 0) then 1 else 2
  {
    MultiplesOfMultiples(y);
    assert [0, 31, 59, 90, 120, 151, 181, 212, 243, 273, 304, 334][m-1]
      == (367 * m - 362) / 12 - if m <= 2 then 0 else 2;
  }

  /** The day number counted without tables of years or months. */
  lemma DayNumberIsClosed(d: Day)
    ensures var shift := if d.month <= 2 then 0
        else if d.year % 400 == 0 || (d.year % 4 == 0 && d.year % 100 != 0) then 1 else 2;
      DayNumber(d) == ClosedYears(d.year) + (367 * d.month - 362) / 12 - shift + d.day - 1
  {
    YearsAreClosed(d.year);
    MonthsAreClosed(d.year, d.month);
  }
}
