/** The date arithmetic of `src/world.rs`: turning a day count into a calendar date.

    The reference definition is the Gregorian calendar itself (leap years, month
    lengths, the day after a given day, and the number of days before a given date).
    Hinnant's closed formula is proved to be its inverse. */
module Calendar {
  import opened Words

  // ---- The calendar, independently of the formula ----

  datatype Date = Date(year: int, month: int, day: int)

  predicate IsLeap(year: int) {
    year % 4 == 0 && (year % 100 != 0 || year % 400 == 0)
  }

  function DaysInMonth(year: int, month: int): int
    requires 1 <= month <= 12
  {
    if month == 2 then (if IsLeap(year) then 29 else 28)
    else if month in {4, 6, 9, 11} then 30
    else 31
  }

  predicate IsDate(date: Date) {
    1 <= date.month <= 12 && 1 <= date.day <= DaysInMonth(date.year, date.month)
  }

  /** The day after a calendar day. */
  function NextDay(date: Date): Date
    requires IsDate(date)
  {
    if date.day < DaysInMonth(date.year, date.month) then date.(day := date.day + 1)
    else if date.month < 12 then Date(date.year, date.month + 1, 1)
    else Date(date.year + 1, 1, 1)
  }

  /** Days before 1 January of `year`, counted from 1 January of year 1. */
  function DaysBeforeYear(year: int): int {
    365 * (year - 1) + (year - 1) / 4 - (year - 1) / 100 + (year - 1) / 400
  }

  /** Days of `year` before the first of `month`. */
  function DaysBeforeMonth(year: int, month: int): int
    requires 1 <= month <= 13
  {
    if month == 1 then 0 else DaysBeforeMonth(year, month - 1) + DaysInMonth(year, month - 1)
  }

  /** Days from 1970-01-01 to `date`; 719162 days separate 0001-01-01 from the epoch. */
  function DayNumber(date: Date): int
    requires 1 <= date.month <= 12
  {
    DaysBeforeYear(date.year) + DaysBeforeMonth(date.year, date.month) + date.day - 1 - 719162
  }

  predicate Before(a: Date, b: Date) {
    a.year < b.year || (a.year == b.year && (a.month < b.month || (a.month == b.month && a.day < b.day)))
  }

  lemma FloorStep(year: int)
    ensures year / 4 == (year - 1) / 4 + (if year % 4 == 0 then 1 else 0)
    ensures year / 100 == (year - 1) / 100 + (if year % 100 == 0 then 1 else 0)
    ensures year / 400 == (year - 1) / 400 + (if year % 400 == 0 then 1 else 0)
  {
  }

  lemma DivisorChain(year: int)
    ensures year % 100 == 0 ==> year % 4 == 0
    ensures year % 400 == 0 ==> year % 100 == 0
  {
    assert year % 100 == (year - 100 * (year / 100));
  }

  lemma YearLength(year: int)
    ensures DaysBeforeYear(year + 1) == DaysBeforeYear(year) + 365 + (if IsLeap(year) then 1 else 0)
  {
    FloorStep(year);
    DivisorChain(year);
  }

  lemma MonthTable(year: int)
    ensures var leap := if IsLeap(year) then 1 else 0;
            && DaysBeforeMonth(year, 1) == 0 && DaysBeforeMonth(year, 2) == 31
            && DaysBeforeMonth(year, 3) == 59 + leap && DaysBeforeMonth(year, 4) == 90 + leap
            && DaysBeforeMonth(year, 5) == 120 + leap && DaysBeforeMonth(year, 6) == 151 + leap
            && DaysBeforeMonth(year, 7) == 181 + leap && DaysBeforeMonth(year, 8) == 212 + leap
            && DaysBeforeMonth(year, 9) == 243 + leap && DaysBeforeMonth(year, 10) == 273 + leap
            && DaysBeforeMonth(year, 11) == 304 + leap && DaysBeforeMonth(year, 12) == 334 + leap
            && DaysBeforeMonth(year, 13) == 365 + leap
  {
    assert DaysBeforeMonth(year, 3) == DaysBeforeMonth(year, 2) + DaysInMonth(year, 2);
    assert DaysBeforeMonth(year, 5) == DaysBeforeMonth(year, 4) + 30;
    assert DaysBeforeMonth(year, 7) == DaysBeforeMonth(year, 6) + 30;
    assert DaysBeforeMonth(year, 9) == DaysBeforeMonth(year, 8) + 31;
    assert DaysBeforeMonth(year, 11) == DaysBeforeMonth(year, 10) + 31;
  }

  /** Counting days agrees with stepping through the calendar one day at a time. */
  lemma DayNumberOfNextDay(date: Date)
    requires IsDate(date)
    ensures IsDate(NextDay(date)) && DayNumber(NextDay(date)) == DayNumber(date) + 1
  {
    MonthTable(date.year);
    YearLength(date.year);
  }

  lemma {:induction false} DaysBeforeYearMonotone(a: int, b: int)
    requires a <= b
    ensures DaysBeforeYear(a) + 365 * (b - a) <= DaysBeforeYear(b)
    decreases b - a
  {
    if a < b {
      DaysBeforeYearMonotone(a, b - 1);
      YearLength(b - 1);
    }
  }

  lemma {:induction false} MonthsInOrder(year: int, a: int, b: int)
    requires 1 <= a < b <= 13
    ensures DaysBeforeMonth(year, a) + DaysInMonth(year, a) <= DaysBeforeMonth(year, b)
    decreases b
  {
    if a < b - 1 { MonthsInOrder(year, a, b - 1); }
  }

  lemma DayOfYearInRange(date: Date)
    requires IsDate(date)
    ensures 0 <= DayNumber(date) + 719162 - DaysBeforeYear(date.year)
          < DaysBeforeYear(date.year + 1) - DaysBeforeYear(date.year)
  {
    MonthTable(date.year);
    YearLength(date.year);
    MonthsInOrder(date.year, date.month, 13);
    if date.month > 1 { MonthsInOrder(date.year, 1, date.month); }
  }

  /** Later dates have larger day numbers, so a day number determines its date. */
  lemma DayNumberMonotone(a: Date, b: Date)
    requires IsDate(a) && IsDate(b) && Before(a, b)
    ensures DayNumber(a) < DayNumber(b)
  {
    if a.year < b.year {
      DayOfYearInRange(a);
      DayOfYearInRange(b);
      DaysBeforeYearMonotone(a.year + 1, b.year);
    } else if a.month < b.month {
      MonthsInOrder(a.year, a.month, b.month);
    }
  }

  // ---- The formula ----

  /** Rust's `/` on signed integers: the quotient is rounded towards zero. */
  function TruncatingQuotient(a: int, b: int): int
    requires b > 0
  {
    if a >= 0 then a / b else -((-a) / b)
  }

  /** Rust's `as i32` from a wider signed integer keeps the low 32 bits. */
  function AsI32(x: int): int {
    (x + 0x8000_0000) % 0x1_0000_0000 - 0x8000_0000
  }

  function Era(days: int): int {
    var z := days + 719468;
    TruncatingQuotient(if z >= 0 then z else z - 146096, 146097)
  }

  /** Era quotients round down although the machine division rounds towards zero. */
  lemma DayOfEraInRange(days: int)
    ensures 0 <= days + 719468 - Era(days) * 146097 <= 146096
  {
  }

  function DayOfEra(days: int): (doe: U64) {
    DayOfEraInRange(days);
    days + 719468 - Era(days) * 146097
  }

  /** Days of an era before its `yoe`-th March-based year. */
  function EraYearStart(yoe: int): int {
    365 * yoe + yoe / 4 - yoe / 100
  }

  function YearOfEra(doe: U64): (yoe: U64)
    requires doe <= 146096
  {
    var q: U64 := doe - doe / 1460;
    var r: U64 := q + doe / 36524 - doe / 146096;
    r / 365
  }

  lemma YearOfEraByParts(doe: U64, century: int, cycle: int, year: int)
    requires doe <= 146096 && 0 <= century <= 3 && 0 <= cycle <= 24 && 0 <= year <= 3
    requires var rest := doe - 36524 * century - 1461 * cycle - 365 * year;
             0 <= rest <= 365 && (rest == 365 ==> year == 3 && (cycle < 24 || century == 3))
    ensures YearOfEra(doe) == 100 * century + 4 * cycle + year
  {
    var rest := doe - 36524 * century - 1461 * cycle - 365 * year;
    var slack := 24 * century + cycle + 365 * year + rest;
    assert doe == 1460 * (25 * century + cycle) + slack;
    assert doe / 1460 == 25 * century + cycle + slack / 1460;
    assert slack / 1460 == if slack >= 1460 then 1 else 0;
    assert doe / 36524 - doe / 146096 == century;
    var numerator := doe - doe / 1460 + doe / 36524 - doe / 146096;
    assert numerator == 365 * (100 * century + 4 * cycle + year) + rest - slack / 1460;
  }

  lemma EraYearStartByParts(century: int, cycle: int, year: int)
    requires 0 <= cycle <= 24 && 0 <= year <= 3
    ensures EraYearStart(100 * century + 4 * cycle + year) == 36524 * century + 1461 * cycle + 365 * year
  {
    var yoe := 100 * century + 4 * cycle + year;
    assert yoe / 4 == 25 * century + cycle;
    assert yoe / 100 == century;
  }

  /** A day of an era as centuries, four-year cycles, years and days; the last century and
      the last year of a cycle may be one day longer than the division suggests. */
  lemma EraParts(doe: U64) returns (century: int, cycle: int, year: int, rest: int)
    requires doe <= 146096
    ensures 0 <= century <= 3 && 0 <= cycle <= 24 && 0 <= year <= 3 && 0 <= rest <= 365
    ensures doe == 36524 * century + 1461 * cycle + 365 * year + rest
    ensures rest == 365 ==> year == 3 && (cycle < 24 || century == 3)
  {
    century := if doe == 146096 then 3 else doe / 36524;
    var inCentury := doe - 36524 * century;
    assert 0 <= inCentury <= 36524 && (inCentury == 36524 ==> century == 3);
    cycle := if inCentury == 36524 then 24 else inCentury / 1461;
    var inCycle := inCentury - 1461 * cycle;
    assert 0 <= cycle <= 24 && 0 <= inCycle <= 1460;
    year := if inCycle == 1460 then 3 else inCycle / 365;
    rest := inCycle - 365 * year;
  }

  /** The year-of-era quotient is exact: the day lies inside the year it names. */
  lemma YearOfEraBracket(doe: U64)
    requires doe <= 146096
    ensures 0 <= YearOfEra(doe) <= 399
    ensures EraYearStart(YearOfEra(doe)) <= doe
    ensures doe < EraYearStart(YearOfEra(doe) + 1) + (if YearOfEra(doe) == 399 then 1 else 0)
  {
    var century, cycle, year, rest := EraParts(doe);
    YearOfEraByParts(doe, century, cycle, year);
    EraYearStartByParts(century, cycle, year);
    if year < 3 { EraYearStartByParts(century, cycle, year + 1); }
    else if cycle < 24 { EraYearStartByParts(century, cycle + 1, 0); }
    else { EraYearStartByParts(century + 1, 0, 0); }
  }

  /** Month and day of the `doy`-th day of a year that starts in March. */
  function FromMarch(y: int, doy: U64): (date: Date)
    requires doy <= 365
  {
    var mp: U64 := (5 * doy + 2) / 153;
    var d: U8 := doy - (153 * mp + 2) / 5 + 1;
    var m: U8 := if mp < 10 then mp + 3 else mp - 9;
    Date(y + (if m <= 2 then 1 else 0), m, d)
  }

  /** `civil_from_days` with the year before its final narrowing to 32 bits. The types
      of the intermediate values are the source's unsigned ones: no subtraction below
      may go under zero. */
  function WideCivilFromDays(days: int): (date: Date) {
    DayOfEraInRange(days);
    var doe := DayOfEra(days);
    YearOfEraBracket(doe);
    var yoe := YearOfEra(doe);
    var y := yoe + Era(days) * 400;
    var doy: U64 := doe - EraYearStart(yoe);
    FromMarch(y, doy)
  }

  function CivilFromDays(days: int): (date: Date) {
    var wide := WideCivilFromDays(days);
    wide.(year := AsI32(wide.year))
  }

  // ---- The formula is the calendar ----

  /** Start of the `mp`-th month of a March-based year, in the formula's own terms. */
  lemma MarchMonth(year: int, doy: int)
    requires 0 <= doy <= 365
    ensures var mp := (5 * doy + 2) / 153;
            var month := if mp < 10 then mp + 3 else mp - 9;
            var marchToJanuary := if mp < 10 then 0 else 306;
            && 0 <= mp <= 11
            && 1 <= doy - (153 * mp + 2) / 5 + 1 <= 31
            && (mp < 10 ==> DaysBeforeMonth(year, month) - DaysBeforeMonth(year, 3) == (153 * mp + 2) / 5)
            && (mp >= 10 ==> DaysBeforeMonth(year, month) + 306 == (153 * mp + 2) / 5)
            && (month != 2 ==> doy - (153 * mp + 2) / 5 + 1 <= DaysInMonth(year, month))
            && (month == 2 ==> doy - (153 * mp + 2) / 5 + 1 == doy - 336)
  {
    MonthTable(year);
    var mp := (5 * doy + 2) / 153;
    assert 153 * mp <= 5 * doy + 2 < 153 * (mp + 1);
    assert mp in {0, 1, 2, 3, 4, 5, 6, 7, 8, 9, 10, 11};
  }

  /** Days from the start of the proleptic calendar to 1 March of year `yoe + 400 * era`. */
  lemma MarchFirst(era: int, yoe: int)
    requires 0 <= yoe <= 400
    ensures DaysBeforeYear(yoe + 400 * era + 1)
         == 146097 * era + EraYearStart(yoe) + (if yoe == 400 then 1 else 0)
  {
    assert (yoe + 400 * era) / 4 == yoe / 4 + 100 * era;
    assert (yoe + 400 * era) / 100 == yoe / 100 + 4 * era;
    assert (yoe + 400 * era) / 400 == yoe / 400 + era;
  }

  /** The day of a March-based year stays below 365 unless that year's February is long. */
  lemma DayOfYearBound(era: int, yoe: int, doy: int)
    requires 0 <= yoe <= 399 && 0 <= doy
    requires doy < EraYearStart(yoe + 1) - EraYearStart(yoe) + (if yoe == 399 then 1 else 0)
    ensures doy <= 365 && (doy == 365 ==> IsLeap(yoe + 400 * era + 1))
  {
    MarchFirst(era, yoe);
    MarchFirst(era, yoe + 1);
    var y := yoe + 400 * era;
    assert (yoe + 1) + 400 * era + 1 == y + 1 + 1;
    YearLength(y + 1);
  }

  /** A date named by March-based year, month and day has the day number of its parts. */
  lemma DayNumberFromMarch(year: int, doy: int)
    requires 0 <= doy <= 365 && (doy == 365 ==> IsLeap(year + 1))
    ensures IsDate(FromMarch(year, doy))
    ensures DayNumber(FromMarch(year, doy)) == DaysBeforeYear(year + 1) - 306 + doy - 719162
  {
    var mp := (5 * doy + 2) / 153;
    MarchMonth(year, doy);
    MarchMonth(year + 1, doy);
    MonthTable(year);
    YearLength(year);
  }

  lemma CivilStepsBack(days: int, yoe: int, doy: int)
    requires yoe == YearOfEra(DayOfEra(days)) && doy == DayOfEra(days) - EraYearStart(yoe) && 0 <= doy <= 365
    ensures WideCivilFromDays(days) == FromMarch(yoe + 400 * Era(days), doy)
  {
  }

  lemma DayNumberInjective(a: Date, b: Date)
    requires IsDate(a) && IsDate(b) && DayNumber(a) == DayNumber(b)
    ensures a == b
  {
    if a != b {
      if Before(a, b) { DayNumberMonotone(a, b); } else { DayNumberMonotone(b, a); }
    }
  }

  /** Every day number is turned into a real calendar date with exactly that number. */
  lemma CivilInvertsDayNumber(days: int)
    ensures IsDate(WideCivilFromDays(days))
    ensures DayNumber(WideCivilFromDays(days)) == days
  {
    var doe := DayOfEra(days);
    DayOfEraInRange(days);
    YearOfEraBracket(doe);
    var yoe, era := YearOfEra(doe), Era(days);
    var doy := doe - EraYearStart(yoe);
    DayOfYearBound(era, yoe, doy);
    CivilStepsBack(days, yoe, doy);
    MarchFirst(era, yoe);
    DayNumberFromMarch(yoe + 400 * era, doy);
  }

  lemma CivilOfDayNumber(date: Date)
    requires IsDate(date)
    ensures WideCivilFromDays(DayNumber(date)) == date
  {
    CivilInvertsDayNumber(DayNumber(date));
    DayNumberInjective(WideCivilFromDays(DayNumber(date)), date);
  }

  lemma DayZero()
    ensures WideCivilFromDays(0) == Date(1970, 1, 1)
  {
    MonthTable(1970);
    CivilOfDayNumber(Date(1970, 1, 1));
  }

  lemma NextDayByNumber(today: Date, tomorrow: Date)
    requires IsDate(today) && IsDate(tomorrow) && DayNumber(tomorrow) == DayNumber(today) + 1
    ensures tomorrow == NextDay(today)
  {
    DayNumberOfNextDay(today);
    DayNumberInjective(tomorrow, NextDay(today));
  }

  /** Day 0 is the Unix epoch, and one more day is always the next calendar day. */
  lemma CivilStepsThroughTheCalendar(days: int)
    ensures WideCivilFromDays(0) == Date(1970, 1, 1)
    ensures IsDate(WideCivilFromDays(days))
    ensures WideCivilFromDays(days + 1) == NextDay(WideCivilFromDays(days))
  {
    DayZero();
    CivilInvertsDayNumber(days);
    CivilInvertsDayNumber(days + 1);
    NextDayByNumber(WideCivilFromDays(days), WideCivilFromDays(days + 1));
  }

  const FIRST_I32_DAY := -784353015833
  const LAST_I32_DAY := 784351576776

  const FIRST_I32_DATE := Date(-0x8000_0000, 1, 1)
  const LAST_I32_DATE := Date(0x7fff_ffff, 12, 31)

  lemma I32Dates()
    ensures IsDate(FIRST_I32_DATE) && DayNumber(FIRST_I32_DATE) == FIRST_I32_DAY
    ensures IsDate(LAST_I32_DATE) && DayNumber(LAST_I32_DATE) == LAST_I32_DAY
  {
    MonthTable(0x7fff_ffff);
  }

  lemma NarrowingKeeps(year: int)
    ensures AsI32(year) == year <==> -0x8000_0000 <= year <= 0x7fff_ffff
  {
  }

  lemma YearsInOrder(date: Date)
    requires IsDate(date)
    ensures -0x8000_0000 <= date.year <= 0x7fff_ffff <==> FIRST_I32_DAY <= DayNumber(date) <= LAST_I32_DAY
  {
    I32Dates();
    if Before(date, FIRST_I32_DATE) { DayNumberMonotone(date, FIRST_I32_DATE); }
    else if date != FIRST_I32_DATE { DayNumberMonotone(FIRST_I32_DATE, date); }
    if Before(LAST_I32_DATE, date) { DayNumberMonotone(LAST_I32_DATE, date); }
    else if date != LAST_I32_DATE { DayNumberMonotone(date, LAST_I32_DATE); }
  }

  /** The narrowing of the year is harmless exactly on the days whose year fits 32 bits. */
  lemma CivilYearNarrowing(days: int)
    ensures CivilFromDays(days) == WideCivilFromDays(days) <==> FIRST_I32_DAY <= days <= LAST_I32_DAY
  {
    CivilInvertsDayNumber(days);
    var wide := WideCivilFromDays(days);
    YearsInOrder(wide);
    NarrowingKeeps(wide.year);
  }

  /** `utc_today`'s day count: whole days in a 64-bit count of seconds. */
  function DaysOfSeconds(seconds: U64): int {
    seconds / 86400
  }

  /** Today's date is a real date, its year is exact until year 2147483647 ends, and
      the offset into the formula's own epoch still fits a signed 64-bit integer. */
  lemma UtcTodayIsExact(seconds: U64)
    ensures DaysOfSeconds(seconds) + 719468 < 0x8000_0000_0000_0000
    ensures seconds < 86400 * (LAST_I32_DAY + 1) <==>
            CivilFromDays(DaysOfSeconds(seconds)) == WideCivilFromDays(DaysOfSeconds(seconds))
    ensures seconds < 86400 * (LAST_I32_DAY + 1) ==>
            IsDate(CivilFromDays(DaysOfSeconds(seconds)))
            && DayNumber(CivilFromDays(DaysOfSeconds(seconds))) == DaysOfSeconds(seconds)
  {
    CivilYearNarrowing(DaysOfSeconds(seconds));
    CivilInvertsDayNumber(DaysOfSeconds(seconds));
  }
}
