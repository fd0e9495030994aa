/** The proleptic Gregorian calendar and `civil_date_from_days` of src/message.rs. */
module Calendar {

  const I64_MIN: int := -0x8000_0000_0000_0000
  const I64_MAX: int := 0x7FFF_FFFF_FFFF_FFFF

  datatype Date = Date(year: int, month: int, day: int)

  //
  // The calendar, stated by its own rules.
  //

  predicate IsLeap(year: int) {
    year % 4 == 0 && (year % 100 != 0 || year % 400 == 0)
  }

  function DaysInMonth(year: int, month: int): int {
    if month == 2 then (if IsLeap(year) then 29 else 28)
    else if month == 4 || month == 6 || month == 9 || month == 11 then 30
    else 31
  }

  predicate ValidDate(date: Date) {
    1 <= date.month <= 12 && 1 <= date.day <= DaysInMonth(date.year, date.month)
  }

  /** The day after `date` on the calendar. */
  function NextDay(date: Date): Date {
    if date.day < DaysInMonth(date.year, date.month) then date.(day := date.day + 1)
    else if date.month < 12 then Date(date.year, date.month + 1, 1)
    else Date(date.year + 1, 1, 1)
  }

  //
  // The algorithm.
  //

  /** Division that truncates toward zero, as the source's `i64` division does. */
  function TruncatingDiv(a: int, b: int): int
    requires b > 0
  {
    if a >= 0 then a / b else -((-a) / b)
  }

  function EraOf(shifted: int): int {
    TruncatingDiv(if shifted >= 0 then shifted else shifted - 146_096, 146_097)
  }

  function YearOfEra(dayOfEra: int): int {
    TruncatingDiv(dayOfEra - TruncatingDiv(dayOfEra, 1_460) + TruncatingDiv(dayOfEra, 36_524)
                  - TruncatingDiv(dayOfEra, 146_096), 365)
  }

  /** The month and day arithmetic on a year that begins on the first of March. */
  function DateInMarchYear(marchYear: int, dayOfYear: int): Date {
    var monthPrime := TruncatingDiv(5 * dayOfYear + 2, 153);
    var day := dayOfYear - TruncatingDiv(153 * monthPrime + 2, 5) + 1;
    var month := monthPrime + (if monthPrime < 10 then 3 else -9);
    Date(marchYear + (if month <= 2 then 1 else 0), month, day)
  }

  function CivilDateFromDays(days: int): Date {
    var shifted := days + 719_468;
    var era := EraOf(shifted);
    var dayOfEra := shifted - era * 146_097;
    var yearOfEra := YearOfEra(dayOfEra);
    var dayOfYear := dayOfEra - (365 * yearOfEra + TruncatingDiv(yearOfEra, 4) - TruncatingDiv(yearOfEra, 100));
    DateInMarchYear(yearOfEra + era * 400, dayOfYear)
  }

  //
  // Proof: an era is 400 years of 146097 days; a day of the era lies in exactly one March-based year.
  //

  /** First day of the March-based year `y` of an era. */
  function YearStart(y: int): int
    requires 0 <= y <= 399
  {
    365 * y + y / 4 - y / 100
  }

  /** Length of the March-based year `y`: it ends with the February of the calendar year `y + 1`. */
  function YearLength(y: int): int {
    if IsLeap(y + 1) then 366 else 365
  }

  predicate InEra(y: int, doy: int) {
    0 <= y <= 399 && 0 <= doy < YearLength(y)
  }

  /** Years and days of an era by century, four-year cycle and year of the cycle. */
  predicate InCycles(century: int, cycle: int, r: int) {
    0 <= century <= 3 && 0 <= cycle <= 24 && 0 <= r <= 3
  }

  lemma YearByCycles(century: int, cycle: int, r: int)
    requires InCycles(century, cycle, r)
    ensures var y := 100 * century + 4 * cycle + r;
            && 0 <= y <= 399
            && YearStart(y) == 36_524 * century + 1_461 * cycle + 365 * r
            && (IsLeap(y + 1) <==> r == 3 && (cycle == 24 ==> century == 3))
  {
    var y := 100 * century + 4 * cycle + r;
    DivisionIs(y, 4, 25 * century + cycle);
    DivisionIs(y, 100, century);
    ModOfSum(25 * century + cycle, 4, r + 1);
    ModOfSum(century, 100, 4 * cycle + r + 1);
  }

  lemma CyclesOfYear(y: int) returns (century: int, cycle: int, r: int)
    requires 0 <= y <= 399
    ensures InCycles(century, cycle, r) && y == 100 * century + 4 * cycle + r
  {
    century, cycle, r := y / 100, y % 100 / 4, y % 4;
  }

  /** A day of the era lies in one of its years. */
  lemma SplitDayOfEra(doe: int) returns (y: int, doy: int)
    requires 0 <= doe < 146_097
    ensures InEra(y, doy) && doe == YearStart(y) + doy
  {
    hide IsLeap, YearStart;
    var century := if doe == 146_096 then 3 else doe / 36_524;
    var inCentury := doe - 36_524 * century;
    var cycle := inCentury / 1_461;
    var inCycle := inCentury - 1_461 * cycle;
    var r := if inCycle == 1_460 then 3 else inCycle / 365;
    y := 100 * century + 4 * cycle + r;
    doy := inCycle - 365 * r;
    YearByCycles(century, cycle, r);
  }

  lemma DivisionIs(n: int, d: int, q: int)
    requires d > 0 && q * d <= n < q * d + d
    ensures n / d == q
  {
    var p := n / d;
    assert n == p * d + n % d;
    assert (p - q) * d == p * d - q * d;
    NoMultipleBetween(p - q, d);
  }

  lemma NoMultipleBetween(x: int, d: int)
    requires d > 0 && -d < x * d < d
    ensures x == 0
  {
    assert x >= 1 ==> x * d >= d;
    assert x <= -1 ==> x * d <= -d;
  }

  /** The closed form of the source finds the year that contains the day. */
  lemma YearOfEraIsTheContainingYear(y: int, doy: int)
    requires InEra(y, doy)
    ensures YearOfEra(YearStart(y) + doy) == y
  {
    hide IsLeap, YearStart, TruncatingDiv;
    var century, cycle, r := CyclesOfYear(y);
    YearByCycles(century, cycle, r);
    var carry, last := QuotientsOfDay(century, cycle, r, doy);
    DivisionIs(365 * y + doy - carry, 365, y);
    TruncatesToQuotient(365 * y + doy - carry, 365);
  }

  lemma TruncatesToQuotient(n: int, d: int)
    requires n >= 0 && d > 0
    ensures TruncatingDiv(n, d) == n / d
  {
  }

  /** The three inner quotients count the leap days so far, up to a carry that the last one cancels. */
  lemma QuotientsOfDay(century: int, cycle: int, r: int, doy: int) returns (carry: int, last: int)
    requires InCycles(century, cycle, r) && 0 <= doy <= 365
    requires doy == 365 ==> r == 3 && (cycle == 24 ==> century == 3)
    ensures var doe := 36_524 * century + 1_461 * cycle + 365 * r + doy;
            && TruncatingDiv(doe, 1_460) == 25 * century + cycle + carry
            && TruncatingDiv(doe, 36_524) == century + last
            && TruncatingDiv(doe, 146_096) == last
    ensures 0 <= carry <= 1 && (doy == 365 ==> carry == 1) && (doy == 0 ==> carry == 0)
  {
    var doe := 36_524 * century + 1_461 * cycle + 365 * r + doy;
    carry := if 24 * century + cycle + 365 * r + doy >= 1_460 then 1 else 0;
    last := if doe == 146_096 then 1 else 0;
    DivisionIs(doe, 1_460, 25 * century + cycle + carry);
    DivisionIs(doe, 36_524, century + last);
    DivisionIs(doe, 146_096, last);
  }

  lemma EraOfDay(era: int, doe: int)
    requires 0 <= doe < 146_097
    ensures EraOf(era * 146_097 + doe) == era
  {
    var shifted := era * 146_097 + doe;
    if shifted >= 0 {
      DivisionIs(shifted, 146_097, era);
    } else {
      DivisionIs(146_096 - shifted, 146_097, -era);
    }
  }

  lemma YearFits(y: int, doy: int)
    requires InEra(y, doy)
    ensures 0 <= YearStart(y) + doy < 146_097
    ensures doy + 1 == YearLength(y) ==>
              YearStart(y) + doy + 1 == if y == 399 then 146_097 else YearStart(y + 1)
  {
    hide IsLeap, YearStart;
    var century, cycle, r := CyclesOfYear(y);
    YearByCycles(century, cycle, r);
    if y < 399 {
      var century', cycle', r' := CyclesOfYear(y + 1);
      YearByCycles(century', cycle', r');
    }
  }

  /** Every (era, year, day of year) is the image of exactly its own day count. */
  lemma CivilDateOfMarchDate(era: int, y: int, doy: int)
    requires InEra(y, doy)
    ensures CivilDateFromDays(era * 146_097 + YearStart(y) + doy - 719_468) == DateInMarchYear(era * 400 + y, doy)
  {
    hide EraOf, YearOfEra, DateInMarchYear, IsLeap;
    YearFits(y, doy);
    EraOfDay(era, YearStart(y) + doy);
    YearOfEraIsTheContainingYear(y, doy);
  }

  lemma MarchDateOf(days: int) returns (era: int, y: int, doy: int)
    ensures InEra(y, doy)
    ensures days == era * 146_097 + YearStart(y) + doy - 719_468
    ensures CivilDateFromDays(days) == DateInMarchYear(era * 400 + y, doy)
  {
    hide CivilDateFromDays, DateInMarchYear, YearStart, IsLeap;
    var shifted := days + 719_468;
    era := shifted / 146_097;
    y, doy := SplitDayOfEra(shifted % 146_097);
    CivilDateOfMarchDate(era, y, doy);
  }

  lemma LeapIsPeriodic(era: int, y: int)
    ensures IsLeap(era * 400 + y) == IsLeap(y)
  {
    ModOfSum(100 * era, 4, y);
    ModOfSum(4 * era, 100, y);
    ModOfSum(era, 400, y);
  }

  lemma ModOfSum(q: int, d: int, r: int)
    requires d > 0
    ensures (q * d + r) % d == r % d
  {
    var k := r / d;
    assert (q + k) * d == q * d + k * d;
    DivisionIs(q * d + r, d, q + k);
  }

  /** Within a March-based year, consecutive days are consecutive dates. */
  lemma DateInMarchYearSteps(year: int, doy: int)
    requires 0 <= doy < YearLength(year)
    ensures ValidDate(DateInMarchYear(year, doy))
    ensures doy + 1 < YearLength(year) ==> NextDay(DateInMarchYear(year, doy)) == DateInMarchYear(year, doy + 1)
    ensures doy + 1 == YearLength(year) ==> NextDay(DateInMarchYear(year, doy)) == DateInMarchYear(year + 1, 0)
  {
  }

  /** The day after the last day of a March-based year opens the next one, across eras as well. */
  lemma YearRollsOver(era: int, y: int, doy: int)
    requires InEra(y, doy) && doy + 1 == YearLength(y)
    ensures CivilDateFromDays(era * 146_097 + YearStart(y) + doy + 1 - 719_468) == DateInMarchYear(era * 400 + y + 1, 0)
  {
    hide CivilDateFromDays, DateInMarchYear, IsLeap;
    YearFits(y, doy);
    if y == 399 {
      CivilDateOfMarchDate(era + 1, 0, 0);
    } else {
      CivilDateOfMarchDate(era, y + 1, 0);
    }
  }

  //
  // Results.
  //

  lemma EpochIsDayZero()
    ensures CivilDateFromDays(0) == Date(1970, 1, 1)
  {
    hide CivilDateFromDays;
    CivilDateOfMarchDate(4, 369, 306);
  }

  /**
    * Every day count gives a date of the calendar, and the next day count gives the next date.
    * With `EpochIsDayZero` this determines the function everywhere, before the epoch as well.
    */
  lemma CivilDateFollowsTheCalendar(days: int)
    ensures ValidDate(CivilDateFromDays(days))
    ensures CivilDateFromDays(days + 1) == NextDay(CivilDateFromDays(days))
  {
    hide CivilDateFromDays, DateInMarchYear, NextDay, ValidDate;
    var era, y, doy := MarchDateOf(days);
    var year := era * 400 + y;
    LeapIsPeriodic(era, y + 1);
    assert YearLength(year) == YearLength(y);
    DateInMarchYearSteps(year, doy);
    if doy + 1 < YearLength(y) {
      CivilDateOfMarchDate(era, y, doy + 1);
    } else {
      YearRollsOver(era, y, doy);
    }
  }

  //
  // The day number of a date, counted from whole years and whole months.
  //

  function LeapYearsBefore(year: int): int {
    (year - 1) / 4 - (year - 1) / 100 + (year - 1) / 400
  }

  function DaysBeforeYear(year: int): int {
    365 * (year - 1970) + LeapYearsBefore(year) - LeapYearsBefore(1970)
  }

  function DaysBeforeMonth(year: int, month: int): int
    requires 1 <= month <= 13
    decreases month
  {
    if month == 1 then 0 else DaysBeforeMonth(year, month - 1) + DaysInMonth(year, month - 1)
  }

  function DaysFromCivil(date: Date): int
    requires ValidDate(date)
  {
    DaysBeforeYear(date.year) + DaysBeforeMonth(date.year, date.month) + date.day - 1
  }

  predicate DateLess(a: Date, b: Date) {
    a.year < b.year || (a.year == b.year && (a.month < b.month || (a.month == b.month && a.day < b.day)))
  }

  lemma {:induction false} MonthsMonotone(year: int, m: int, n: int)
    requires 1 <= m < n <= 13
    ensures DaysBeforeMonth(year, m) + DaysInMonth(year, m) <= DaysBeforeMonth(year, n)
    decreases n
  {
    if m + 1 < n { MonthsMonotone(year, m, n - 1); }
  }

  lemma LeapYearCount(year: int)
    ensures LeapYearsBefore(year + 1) == LeapYearsBefore(year) + (if IsLeap(year) then 1 else 0)
  {
    MultiplesUpTo(year, 4);
    MultiplesUpTo(year, 100);
    MultiplesUpTo(year, 400);
    Divisors(year);
  }

  lemma Divisors(n: int)
    ensures n % 400 == 0 ==> n % 100 == 0
    ensures n % 100 == 0 ==> n % 4 == 0
  {
    ModOfSum(4 * (n / 400), 100, n % 400);
    ModOfSum(25 * (n / 100), 4, n % 100);
  }

  lemma MultiplesUpTo(n: int, d: int)
    requires d == 4 || d == 100 || d == 400
    ensures n / d == (n - 1) / d + (if n % d == 0 then 1 else 0)
  {
  }

  lemma YearLengthInMonths(year: int)
    ensures DaysBeforeMonth(year, 13) == if IsLeap(year) then 366 else 365
    ensures DaysBeforeYear(year + 1) == DaysBeforeYear(year) + DaysBeforeMonth(year, 13)
  {
    LeapYearCount(year);
    assert DaysBeforeMonth(year, 3) == 31 + DaysInMonth(year, 2);
    assert DaysBeforeMonth(year, 6) == DaysBeforeMonth(year, 3) + 92;
    assert DaysBeforeMonth(year, 9) == DaysBeforeMonth(year, 6) + 92;
    assert DaysBeforeMonth(year, 12) == DaysBeforeMonth(year, 9) + 91;
  }

  /** Later dates have larger day numbers. */
  lemma DayNumberIsMonotone(a: Date, b: Date)
    requires ValidDate(a) && ValidDate(b) && DateLess(a, b)
    ensures DaysFromCivil(a) < DaysFromCivil(b)
  {
    if a.year < b.year {
      MonthsMonotone(a.year, a.month, 13);
      YearLengthInMonths(a.year);
      assert DaysBeforeYear(a.year + 1) <= DaysBeforeYear(b.year);
      if b.month > 1 { MonthsMonotone(b.year, 1, b.month); }
    } else if a.month < b.month {
      MonthsMonotone(a.year, a.month, b.month);
    }
  }

  lemma DayNumberOfEpoch()
    ensures ValidDate(Date(1970, 1, 1)) && DaysFromCivil(Date(1970, 1, 1)) == 0
  {
  }

  lemma DayNumberOfNextDay(date: Date)
    requires ValidDate(date)
    ensures ValidDate(NextDay(date)) && DaysFromCivil(NextDay(date)) == DaysFromCivil(date) + 1
  {
    YearLengthInMonths(date.year);
  }

  /** Counting days inverts the algorithm on every day count. */
  lemma {:induction false} DaysFromCivilInvertsCivilDate(days: int)
    ensures ValidDate(CivilDateFromDays(days)) && DaysFromCivil(CivilDateFromDays(days)) == days
    decreases if days < 0 then -days else days
  {
    hide CivilDateFromDays, NextDay, ValidDate, DaysFromCivil;
    EpochIsDayZero();
    DayNumberOfEpoch();
    CivilDateFollowsTheCalendar(days);
    if days > 0 {
      DaysFromCivilInvertsCivilDate(days - 1);
      CivilDateFollowsTheCalendar(days - 1);
      DayNumberOfNextDay(CivilDateFromDays(days - 1));
    } else if days < 0 {
      DaysFromCivilInvertsCivilDate(days + 1);
      DayNumberOfNextDay(CivilDateFromDays(days));
    }
  }

  /** The algorithm inverts counting on every valid date. */
  lemma CivilDateInvertsDaysFromCivil(date: Date)
    requires ValidDate(date)
    ensures CivilDateFromDays(DaysFromCivil(date)) == date
  {
    var back := CivilDateFromDays(DaysFromCivil(date));
    DaysFromCivilInvertsCivilDate(DaysFromCivil(date));
    if DateLess(back, date) {
      DayNumberIsMonotone(back, date);
    } else if DateLess(date, back) {
      DayNumberIsMonotone(date, back);
    }
  }

  /** Dates are ordered as their day counts are. */
  lemma CivilDateIsMonotone(m: int, n: int)
    ensures DateLess(CivilDateFromDays(m), CivilDateFromDays(n)) <==> m < n
  {
    DaysFromCivilInvertsCivilDate(m);
    DaysFromCivilInvertsCivilDate(n);
    if DateLess(CivilDateFromDays(m), CivilDateFromDays(n)) {
      DayNumberIsMonotone(CivilDateFromDays(m), CivilDateFromDays(n));
    } else if DateLess(CivilDateFromDays(n), CivilDateFromDays(m)) {
      DayNumberIsMonotone(CivilDateFromDays(n), CivilDateFromDays(m));
    }
  }

  predicate InI64(x: int) { I64_MIN <= x <= I64_MAX }

  /** If the first addition stays in `i64`, so does every later intermediate value. */
  lemma NoIntermediateOverflow(days: int)
    requires InI64(days) && InI64(days + 719_468)
    ensures var shifted := days + 719_468;
            var era := EraOf(shifted);
            var dayOfEra := shifted - era * 146_097;
            var yearOfEra := YearOfEra(dayOfEra);
            var dayOfYear := dayOfEra - (365 * yearOfEra + TruncatingDiv(yearOfEra, 4) - TruncatingDiv(yearOfEra, 100));
            var monthPrime := TruncatingDiv(5 * dayOfYear + 2, 153);
            && InI64(if shifted >= 0 then shifted else shifted - 146_096)
            && InI64(era * 146_097) && InI64(era * 400)
            && 0 <= dayOfEra < 146_097
            && 0 <= yearOfEra <= 399 && InI64(yearOfEra + era * 400)
            && 0 <= dayOfYear <= 365
            && 0 <= monthPrime <= 11
            && 0 <= TruncatingDiv(153 * monthPrime + 2, 5) <= 337
            && 1 <= CivilDateFromDays(days).day <= 31
            && InI64(CivilDateFromDays(days).year)
  {
    hide YearOfEra, EraOf, IsLeap, CivilDateFromDays, ValidDate;
    var era, y, doy := MarchDateOf(days);
    YearFits(y, doy);
    EraOfDay(era, YearStart(y) + doy);
    YearOfEraIsTheContainingYear(y, doy);
    EraIsSmall(era, YearStart(y) + doy);
    CivilDateFollowsTheCalendar(days);
    DayOfValidDate(CivilDateFromDays(days));
  }

  lemma DayOfValidDate(date: Date)
    requires ValidDate(date)
    ensures 1 <= date.day <= 31
  {
  }

  lemma EraIsSmall(era: int, doe: int)
    requires 0 <= doe < 146_097 && InI64(era * 146_097 + doe - 719_468) && InI64(era * 146_097 + doe)
    ensures InI64(era * 146_097) && InI64(era * 400) && InI64(era * 400 + 400)
  {
  }
}
