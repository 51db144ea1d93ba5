/** The day-number to Gregorian-date conversion that three files of the repository carry:
    twice with a truncating division and once with a Euclidean one.  The calendar itself
    (leap years, month lengths, the next day, the number of a day) is defined here from the
    Gregorian rules, without reference to the conversion. */
module Calendar {

  datatype Date = Date(year: int, month: int, day: int)

  // --- the Gregorian calendar ---

  predicate IsLeap(y: int) {
    y % 4 == 0 && (y % 100 != 0 || y % 400 == 0)
  }

  function DaysInMonth(y: int, m: int): int {
    if m == 2 then (if IsLeap(y) then 29 else 28)
    else if m == 4 || m == 6 || m == 9 || m == 11 then 30
    else 31
  }

  predicate ValidDate(d: Date) {
    1 <= d.month <= 12 && 1 <= d.day <= DaysInMonth(d.year, d.month)
  }

  function NextDay(d: Date): Date {
    if d.day < DaysInMonth(d.year, d.month) then d.(day := d.day + 1)
    else if d.month < 12 then Date(d.year, d.month + 1, 1)
    else Date(d.year + 1, 1, 1)
  }

  /** Days from 0001-01-01 to January 1st of year `y`. */
  function YearStart(y: int): int {
    365 * (y - 1) + (y - 1) / 4 - (y - 1) / 100 + (y - 1) / 400
  }

  function DaysBeforeMonth(y: int, m: int): int
    requires 1 <= m <= 12
    decreases m
  {
    if m == 1 then 0 else DaysBeforeMonth(y, m - 1) + DaysInMonth(y, m - 1)
  }

  /** The number of a date, counted from 1970-01-01. */
  function DayNumber(d: Date): int
    requires 1 <= d.month <= 12
  {
    YearStart(d.year) + DaysBeforeMonth(d.year, d.month) + d.day - 1 - 719162
  }

  predicate Earlier(a: Date, b: Date) {
    a.year < b.year
    || (a.year == b.year && (a.month < b.month || (a.month == b.month && a.day < b.day)))
  }

  // --- the conversion, in its two forms ---

  /** Division as Rust's `/` on signed integers: the quotient is cut toward zero. */
  function TruncDiv(a: int, b: int): int
    requires b > 0
  {
    if a >= 0 then a / b else -((-a) / b)
  }

  function YearOfEra(doe: int): int {
    (doe - doe / 1460 + doe / 36524 - doe / 146096) / 365
  }

  function CivilOfEra(era: int, doe: int): Date {
    var yoe := YearOfEra(doe);
    var year := yoe + era * 400;
    var doy := doe - (365 * yoe + yoe / 4 - yoe / 100);
    var mp := (5 * doy + 2) / 153;
    var day := doy - (153 * mp + 2) / 5 + 1;
    var month := if mp < 10 then mp + 3 else mp - 9;
    Date(if month <= 2 then year + 1 else year, month, day)
  }

  /** The form that divides with `div_euclid` and `rem_euclid`. */
  function CivilFromDays(days: int): Date {
    var z := days + 719468;
    CivilOfEra(z / 146097, z % 146097)
  }

  /** The form that divides with the truncating operator after biasing negative numbers. */
  function CivilFromDaysTrunc(days: int): Date {
    var z := days + 719468;
    var era := TruncDiv(if z >= 0 then z else z - 146096, 146097);
    var doe := z - era * 146097;
    CivilOfEra(era, doe)
  }

  // --- both forms are one function ---

  lemma QuotientIs(a: int, b: int, q: int, r: int)
    requires b > 0 && a == b * q + r && 0 <= r < b
    ensures a / b == q && a % b == r
  {
    assert b * (a / b - q) == r - a % b;
    SmallMultiple(b, a / b - q);
  }

  lemma SmallMultiple(b: int, k: int)
    requires -b < b * k < b
    ensures k == 0
  {
    assert k >= 1 ==> b * k >= b;
    assert k <= -1 ==> b * k <= -b;
  }

  lemma TruncatedFormEqualsEuclideanForm(days: int)
    ensures CivilFromDaysTrunc(days) == CivilFromDays(days)
  {
    hide CivilOfEra;
    var z := days + 719468;
    if z < 0 {
      var k, r := z / 146097, z % 146097;
      assert 146096 - z == 146097 * (-k) + (146096 - r);
      QuotientIs(146096 - z, 146097, -k, 146096 - r);
    }
  }

  // --- inside one 400-year era, counted from March 1st ---

  function MarchYearStart(yoe: int): int {
    365 * yoe + yoe / 4 - yoe / 100
  }

  lemma YearOfEraDigits(doe: int) returns (c: int, q: int, y: int, doy: int)
    requires 0 <= doe < 146097
    ensures 0 <= c < 4 && 0 <= q < 25 && 0 <= y < 4 && 0 <= doy <= 365
    ensures doe == 36524 * c + 1461 * q + 365 * y + doy
    ensures YearOfEra(doe) == 100 * c + 4 * q + y
    ensures doy == 365 ==> y == 3 && (q < 24 || c == 3)
  {
    c := if doe / 36524 == 4 then 3 else doe / 36524;
    var r1 := doe - 36524 * c;
    q := r1 / 1461;
    var r2 := r1 - 1461 * q;
    y := if r2 / 365 == 4 then 3 else r2 / 365;
    doy := r2 - 365 * y;
    assert doe / 36524 - doe / 146096 == c;
    assert doe == 1460 * (25 * c + q) + (24 * c + q + r2);
    var e := if 24 * c + q + r2 >= 1460 then 1 else 0;
    assert doe / 1460 == 25 * c + q + e;
    assert doe - doe / 1460 + c == 365 * (100 * c + 4 * q) + (r2 - e);
    assert (r2 - e) / 365 == y;
  }

  /** The day of the March-based year lies inside that year, and is its 366th day only
      when the February that ends the year has 29 days. */
  lemma DayOfEraIsInItsYear(doe: int)
    requires 0 <= doe < 146097
    ensures 0 <= YearOfEra(doe) < 400
    ensures 0 <= doe - MarchYearStart(YearOfEra(doe)) <= 365
    ensures doe - MarchYearStart(YearOfEra(doe)) == 365 ==> IsLeap(YearOfEra(doe) + 1)
  {
    var c, q, y, doy := YearOfEraDigits(doe);
    var yoe := 100 * c + 4 * q + y;
    assert yoe / 4 == 25 * c + q && yoe / 100 == c;
    assert MarchYearStart(yoe) == 36524 * c + 1461 * q + 365 * y;
    if doy == 365 {
      assert yoe + 1 == 4 * (25 * c + q + 1);
      if c != 3 || q < 24 {
        assert (yoe + 1) % 100 == 4 * (q + 1);
      }
    }
  }

  lemma MarchMonths(doy: int)
    requires 0 <= doy <= 365
    ensures var mp := (5 * doy + 2) / 153;
            && 0 <= mp <= 11
            && (153 * mp + 2) / 5 <= doy
            && (mp < 11 ==> doy < (153 * (mp + 1) + 2) / 5)
  {
  }

  function MonthStart(mp: int): int {
    (153 * mp + 2) / 5
  }

  lemma DaysBeforeMonthTable(y: int, m: int)
    requires 1 <= m <= 12
    ensures DaysBeforeMonth(y, m) ==
            (if m == 1 then 0 else if m == 2 then 31
             else MonthStart(m - 3) + (if IsLeap(y) then 60 else 59))
  {
    if m > 1 { DaysBeforeMonthTable(y, m - 1); }
  }

  lemma YearStartOfEra(era: int, yoe: int)
    requires 0 <= yoe < 400
    ensures YearStart(yoe + 400 * era + 1) == 146097 * era + MarchYearStart(yoe)
  {
    assert (yoe + 400 * era) / 4 == yoe / 4 + 100 * era;
    assert (yoe + 400 * era) / 100 == yoe / 100 + 4 * era;
    assert (yoe + 400 * era) / 400 == era;
  }

  lemma LeapIsPeriodic(y: int, era: int)
    ensures IsLeap(y + 400 * era) == IsLeap(y)
  {
    QuotientIs(y + 400 * era, 4, y / 4 + 100 * era, y % 4);
    QuotientIs(y + 400 * era, 100, y / 100 + 4 * era, y % 100);
    QuotientIs(y + 400 * era, 400, y / 400 + era, y % 400);
  }

  lemma YearLength(y: int)
    ensures YearStart(y + 1) == YearStart(y) + (if IsLeap(y) then 366 else 365)
  {
    QuotientStep(y, 4);
    QuotientStep(y, 100);
    QuotientStep(y, 400);
    var a, b := y / 100, y / 400;
    assert y == 100 * a + y % 100;
    assert y == 400 * b + y % 400;
    if y % 100 == 0 { QuotientIs(y, 4, 25 * a, 0); }
    if y % 400 == 0 { QuotientIs(y, 100, 4 * b, 0); }
  }

  lemma QuotientStep(y: int, n: int)
    requires n > 1
    ensures y / n - (y - 1) / n == (if y % n == 0 then 1 else 0)
  {
    var q, r := y / n, y % n;
    assert y == n * q + r;
    if r == 0 {
      assert y - 1 == n * (q - 1) + (n - 1);
      QuotientIs(y - 1, n, q - 1, n - 1);
    } else {
      QuotientIs(y - 1, n, q, r - 1);
    }
  }

  /** The date of a day of the year that starts on March 1st of year `y`. */
  function FromMarch(y: int, doy: int): Date {
    var mp := (5 * doy + 2) / 153;
    var month := if mp < 10 then mp + 3 else mp - 9;
    Date(if month <= 2 then y + 1 else y, month, doy - MonthStart(mp) + 1)
  }

  lemma FromMarchIsRight(y: int, doy: int)
    requires 0 <= doy <= 365 && (doy == 365 ==> IsLeap(y + 1))
    ensures ValidDate(FromMarch(y, doy))
    ensures DayNumber(FromMarch(y, doy)) == YearStart(y + 1) + doy - 306 - 719162
  {
    hide IsLeap, YearStart;
    MarchMonths(doy);
    var d := FromMarch(y, doy);
    YearLength(y);
    DaysBeforeMonthTable(d.year, d.month);
  }

  lemma CivilOfEraIsRight(era: int, doe: int)
    requires 0 <= doe < 146097
    ensures ValidDate(CivilOfEra(era, doe))
    ensures DayNumber(CivilOfEra(era, doe)) + 719468 == era * 146097 + doe
  {
    hide IsLeap, YearStart, ValidDate, DayNumber;
    var yoe := YearOfEra(doe);
    var doy := doe - MarchYearStart(yoe);
    DayOfEraIsInItsYear(doe);
    LeapIsPeriodic(yoe + 1, era);
    assert yoe + 1 + 400 * era == yoe + era * 400 + 1;
    YearStartOfEra(era, yoe);
    FromMarchIsRight(yoe + era * 400, doy);
    assert CivilOfEra(era, doe) == FromMarch(yoe + era * 400, doy);
  }

  // --- main results ---

  /** The conversion yields a date of the Gregorian calendar, and the number of that date
      is the day number it was given. */
  lemma CivilFromDaysIsInverse(days: int)
    ensures ValidDate(CivilFromDays(days))
    ensures DayNumber(CivilFromDays(days)) == days
  {
    CivilOfEraIsRight((days + 719468) / 146097, (days + 719468) % 146097);
  }

  lemma {:induction false} YearStartMonotone(a: int, b: int)
    requires a < b
    ensures YearStart(a) + (if IsLeap(a) then 366 else 365) <= YearStart(b)
    decreases b - a
  {
    YearLength(a);
    if a + 1 < b { YearStartMonotone(a + 1, b); }
  }

  lemma {:induction false} MonthStartMonotone(y: int, a: int, b: int)
    requires 1 <= a < b <= 12
    ensures DaysBeforeMonth(y, a) + DaysInMonth(y, a) <= DaysBeforeMonth(y, b)
    decreases b - a
  {
    if a + 1 < b { MonthStartMonotone(y, a + 1, b); }
  }

  lemma DayInYear(d: Date)
    requires ValidDate(d)
    ensures 0 <= DaysBeforeMonth(d.year, d.month) + d.day - 1 < (if IsLeap(d.year) then 366 else 365)
  {
    DaysBeforeMonthTable(d.year, d.month);
  }

  lemma DayNumberIsMonotone(a: Date, b: Date)
    requires ValidDate(a) && ValidDate(b) && Earlier(a, b)
    ensures DayNumber(a) < DayNumber(b)
  {
    DayInYear(a);
    DayInYear(b);
    if a.year < b.year {
      YearStartMonotone(a.year, b.year);
    } else if a.month < b.month {
      MonthStartMonotone(a.year, a.month, b.month);
    }
  }

  /** Day numbers order dates: earlier date, smaller number, and conversely. */
  lemma DayNumberOrdersDates(a: Date, b: Date)
    requires ValidDate(a) && ValidDate(b)
    ensures Earlier(a, b) <==> DayNumber(a) < DayNumber(b)
    ensures a == b <==> DayNumber(a) == DayNumber(b)
  {
    if Earlier(a, b) {
      DayNumberIsMonotone(a, b);
    } else if Earlier(b, a) {
      DayNumberIsMonotone(b, a);
    }
  }

  /** Every date of the calendar is produced, by its own number only. */
  lemma CivilFromDaysCoversEveryDate(d: Date)
    requires ValidDate(d)
    ensures CivilFromDays(DayNumber(d)) == d
  {
    CivilFromDaysIsInverse(DayNumber(d));
    DayNumberOrdersDates(CivilFromDays(DayNumber(d)), d);
  }

  lemma NextDayIsNextNumber(d: Date)
    requires ValidDate(d)
    ensures ValidDate(NextDay(d)) && DayNumber(NextDay(d)) == DayNumber(d) + 1
  {
    YearLength(d.year);
    DaysBeforeMonthTable(d.year, d.month);
    if d.month < 12 { DaysBeforeMonthTable(d.year, d.month + 1); }
  }

  lemma DayZero()
    ensures CivilFromDays(0) == Date(1970, 1, 1)
  {
    var d := Date(1970, 1, 1);
    assert DayNumber(d) == 0;
    CivilFromDaysCoversEveryDate(d);
  }

  lemma NextDayIsNextCivil(days: int, d: Date, e: Date)
    requires d == CivilFromDays(days) && e == NextDay(d)
    ensures CivilFromDays(days + 1) == e
  {
    CivilFromDaysIsInverse(days);
    NextDayIsNextNumber(d);
    CivilFromDaysCoversEveryDate(e);
  }

  /** Day 0 is 1970-01-01, and each day number yields the calendar's next day after the
      date of the number before it. */
  lemma CivilFromDaysFollowsTheCalendar(days: int)
    ensures CivilFromDays(0) == Date(1970, 1, 1)
    ensures CivilFromDays(days + 1) == NextDay(CivilFromDays(days))
  {
    DayZero();
    NextDayIsNextCivil(days, CivilFromDays(days), NextDay(CivilFromDays(days)));
  }
}
