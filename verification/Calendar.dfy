/**
 The two calendars of ward: the closed form `civil` and the year-by-year loop
 `month_day`. Both are proved against day counts that add up whole years and
 months, so they agree with each other.
 */
module Calendar {
  import opened Machine

  const SECONDS_PER_MINUTE := 60
  const SECONDS_PER_HOUR := 3600
  const SECONDS_PER_DAY := 86_400
  const DAYS_FROM_YEAR_0_TO_1970 := 719_468
  const DAYS_PER_ERA := 146_097
  const YEARS_PER_ERA := 400
  const DAYS_PER_YEAR := 365
  const DAYS_PER_4_YEARS := 1460
  const DAYS_PER_100_YEARS := 36_524
  const DAYS_PER_ERA_LESS_ONE := 146_096
  const DAYS_PER_5_MONTHS := 153
  const JANUARY_INDEX := 10
  const MARCH_NUMBER := 3
  const JANUARY_NUMBER_OFFSET := 9
  const EPOCH_YEAR := 1970

  datatype Date = Date(year: int, month: int, day: int)

  datatype Civil = Civil(date: Date, hour: int, minute: int, second: int)

  // ---- the closed form -----------------------------------------------------

  function YearOfEra(dayOfEra: nat): int {
    (dayOfEra - dayOfEra / DAYS_PER_4_YEARS + dayOfEra / DAYS_PER_100_YEARS
     - dayOfEra / DAYS_PER_ERA_LESS_ONE) / DAYS_PER_YEAR
  }

  /** Days from the start of an era to the first of March of its year `y`. */
  function EraYearStart(y: nat): int {
    DAYS_PER_YEAR * y + y / 4 - y / 100
  }

  /** The date `dayOfYear` days after the first of March of `year`, as `civil` finds it. */
  function DateFromMarch(year: int, dayOfYear: int): Date {
    var monthIndex := (5 * dayOfYear + 2) / DAYS_PER_5_MONTHS;
    var day := dayOfYear - (DAYS_PER_5_MONTHS * monthIndex + 2) / 5 + 1;
    var month := if monthIndex < JANUARY_INDEX then monthIndex + MARCH_NUMBER
                 else monthIndex - JANUARY_NUMBER_OFFSET;
    Date(year + (if month <= 2 then 1 else 0), month, day)
  }

  function DateOfDays(days: int): Date {
    var shifted := days + DAYS_FROM_YEAR_0_TO_1970;
    var era := shifted / DAYS_PER_ERA;
    var dayOfEra := shifted % DAYS_PER_ERA;
    var yearOfEra := YearOfEra(dayOfEra);
    var dayOfYear := dayOfEra - (DAYS_PER_YEAR * yearOfEra + yearOfEra / 4 - yearOfEra / 100);
    DateFromMarch(yearOfEra + era * YEARS_PER_ERA, dayOfYear)
  }

  /** `civil`: unix seconds split into UTC calendar fields. */
  function CivilOf(seconds: int): Civil {
    var rest := seconds % SECONDS_PER_DAY;
    Civil(DateOfDays(seconds / SECONDS_PER_DAY),
          rest / SECONDS_PER_HOUR,
          rest % SECONDS_PER_HOUR / SECONDS_PER_MINUTE,
          rest % SECONDS_PER_MINUTE)
  }

  // ---- the calendar itself -------------------------------------------------

  predicate IsLeap(year: int) {
    year % 4 == 0 && (year % 100 != 0 || year % 400 == 0)
  }

  const MONTHS: seq<(string, nat)> := [
    ("Jan", 31), ("Feb", 28), ("Mar", 31), ("Apr", 30), ("May", 31), ("Jun", 30),
    ("Jul", 31), ("Aug", 31), ("Sep", 30), ("Oct", 31), ("Nov", 30), ("Dec", 31)]

  /** Days of the month with index `month`, January being 0. */
  function MonthLength(year: int, month: nat): (r: nat)
    requires month < 12
    ensures 28 <= r <= 31
  {
    MONTHS[month].1 + (if month == 1 && IsLeap(year) then 1 else 0)
  }

  function YearLength(year: int): nat {
    if IsLeap(year) then 366 else 365
  }

  predicate ValidDate(d: Date) {
    1 <= d.month <= 12 && 1 <= d.day <= MonthLength(d.year, d.month - 1)
  }

  predicate ValidCivil(c: Civil) {
    ValidDate(c.date) && 0 <= c.hour < 24 && 0 <= c.minute < 60 && 0 <= c.second < 60
  }

  /** Days from the epoch to the first day of `year`, one year at a time. */
  ghost function DaysBeforeYear(year: int): int
    decreases if year < EPOCH_YEAR then EPOCH_YEAR - year else year - EPOCH_YEAR
  {
    if year == EPOCH_YEAR then 0
    else if year > EPOCH_YEAR then DaysBeforeYear(year - 1) + YearLength(year - 1)
    else DaysBeforeYear(year + 1) - YearLength(year)
  }

  /** Days of the first `month` months of `year`. */
  ghost function DaysBeforeMonth(year: int, month: nat): nat
    requires month <= 12
  {
    if month == 0 then 0 else DaysBeforeMonth(year, month - 1) + MonthLength(year, month - 1)
  }

  /** The day number of a date, counted from 1970-01-01. */
  ghost function DayNumber(d: Date): int
    requires ValidDate(d)
  {
    DaysBeforeYear(d.year) + DaysBeforeMonth(d.year, d.month - 1) + d.day - 1
  }

  ghost function SecondNumber(c: Civil): int
    requires ValidCivil(c)
  {
    DayNumber(c.date) * SECONDS_PER_DAY + c.hour * SECONDS_PER_HOUR + c.minute * SECONDS_PER_MINUTE + c.second
  }

  predicate DateBefore(a: Date, b: Date) {
    a.year < b.year || (a.year == b.year && (a.month < b.month || (a.month == b.month && a.day < b.day)))
  }

  lemma YearStep(year: int)
    ensures DaysBeforeYear(year + 1) == DaysBeforeYear(year) + YearLength(year)
  {
  }

  lemma {:induction false} YearsGrow(a: int, b: int)
    requires a <= b
    ensures DaysBeforeYear(a) <= DaysBeforeYear(b)
    decreases b - a
  {
    if a < b {
      YearStep(b - 1);
      YearsGrow(a, b - 1);
    }
  }

  lemma {:induction false} MonthsGrow(year: int, a: nat, b: nat)
    requires a <= b <= 12
    ensures DaysBeforeMonth(year, a) <= DaysBeforeMonth(year, b)
    decreases b - a
  {
    if a < b {
      MonthsGrow(year, a, b - 1);
    }
  }

  /** The month table written out. */
  lemma MonthSums(year: int)
    ensures var l := if IsLeap(year) then 1 else 0;
            && DaysBeforeMonth(year, 0) == 0
            && DaysBeforeMonth(year, 1) == 31
            && DaysBeforeMonth(year, 2) == 59 + l
            && DaysBeforeMonth(year, 3) == 90 + l
            && DaysBeforeMonth(year, 4) == 120 + l
            && DaysBeforeMonth(year, 5) == 151 + l
            && DaysBeforeMonth(year, 6) == 181 + l
            && DaysBeforeMonth(year, 7) == 212 + l
            && DaysBeforeMonth(year, 8) == 243 + l
            && DaysBeforeMonth(year, 9) == 273 + l
            && DaysBeforeMonth(year, 10) == 304 + l
            && DaysBeforeMonth(year, 11) == 334 + l
            && DaysBeforeMonth(year, 12) == 365 + l
  {
    assert DaysBeforeMonth(year, 0) == 0;
    assert DaysBeforeMonth(year, 3) == DaysBeforeMonth(year, 2) + 31;
    assert DaysBeforeMonth(year, 5) == DaysBeforeMonth(year, 4) + 31;
    assert DaysBeforeMonth(year, 7) == DaysBeforeMonth(year, 6) + 31;
    assert DaysBeforeMonth(year, 9) == DaysBeforeMonth(year, 8) + 30;
    assert DaysBeforeMonth(year, 11) == DaysBeforeMonth(year, 10) + 30;
  }

  /** Day numbers keep the order of dates, so no two dates share one. */
  lemma DayNumberKeepsOrder(a: Date, b: Date)
    requires ValidDate(a) && ValidDate(b)
    ensures DayNumber(a) < DayNumber(b) <==> DateBefore(a, b)
    ensures DayNumber(a) == DayNumber(b) ==> a == b
  {
    hide DaysBeforeYear, DaysBeforeMonth, DayNumber;
    if DateBefore(a, b) {
      EarlierDate(a, b);
    } else if DateBefore(b, a) {
      EarlierDate(b, a);
    }
  }

  lemma EarlierDate(a: Date, b: Date)
    requires ValidDate(a) && ValidDate(b) && DateBefore(a, b)
    ensures DayNumber(a) < DayNumber(b)
  {
    hide DaysBeforeYear;
    if a.year < b.year {
      EarlierYear(a, b);
    } else if a.month < b.month {
      MonthsGrow(a.year, a.month, b.month - 1);
    }
  }

  lemma EarlierYear(a: Date, b: Date)
    requires ValidDate(a) && ValidDate(b) && a.year < b.year
    ensures DayNumber(a) < DayNumber(b)
  {
    YearStep(a.year);
    YearsGrow(a.year + 1, b.year);
    MonthsGrow(a.year, a.month, 12);
    MonthSums(a.year);
  }

  // ---- the closed form is the calendar -------------------------------------

  /** A day of an era, split into whole centuries, leap cycles, years and days. */
  predicate EraParts(c: int, q: int, a: int, r: int) {
    && 0 <= c <= 3 && 0 <= q <= 24 && 0 <= a <= 3 && 0 <= r <= 365
    && (r == 365 ==> a == 3 && (q == 24 ==> c == 3))
  }

  lemma SplitDayOfEra(dayOfEra: nat) returns (c: int, q: int, a: int, r: int)
    requires dayOfEra < DAYS_PER_ERA
    ensures EraParts(c, q, a, r)
    ensures dayOfEra == 36_524 * c + 1461 * q + 365 * a + r
  {
    c := if dayOfEra == 146_096 then 3 else dayOfEra / 36_524;
    var inCentury := dayOfEra - 36_524 * c;
    q := inCentury / 1461;
    var inCycle := inCentury - 1461 * q;
    a := if inCycle == 1460 then 3 else inCycle / 365;
    r := inCycle - 365 * a;
  }

  lemma YearOfEraParts(c: int, q: int, a: int, r: int)
    requires EraParts(c, q, a, r)
    ensures YearOfEra(36_524 * c + 1461 * q + 365 * a + r) == 100 * c + 4 * q + a
  {
    var d := 36_524 * c + 1461 * q + 365 * a + r;
    var over := 24 * c + q + 365 * a + r;
    assert d == 1460 * (25 * c + q) + over;
    assert 0 <= over < 2 * 1460;
    assert d / 1460 == 25 * c + q + (if over >= 1460 then 1 else 0);
    assert d / 36_524 == (if d == 146_096 then 4 else c);
    assert d / 146_096 == (if d == 146_096 then 1 else 0);
  }

  lemma EraYearStartParts(c: int, q: int, a: int)
    requires 0 <= c <= 3 && 0 <= q <= 24 && 0 <= a <= 3
    ensures EraYearStart(100 * c + 4 * q + a) == 36_524 * c + 1461 * q + 365 * a
  {
    var y := 100 * c + 4 * q + a;
    assert y / 4 == 25 * c + q;
    assert y / 100 == c;
  }

  /** Days from the first of March of year 0 to the first of March of `year`. */
  function MarchStart(year: int): int {
    365 * year + year / 4 - year / 100 + year / 400
  }

  lemma MarchStep(year: int)
    ensures MarchStart(year + 1) == MarchStart(year) + 365 + (if IsLeap(year + 1) then 1 else 0)
  {
    FloorStep(year, 4);
    FloorStep(year, 100);
    FloorStep(year, 400);
    assert (year + 1) % 400 == 0 ==> (year + 1) % 100 == 0;
    assert (year + 1) % 100 == 0 ==> (year + 1) % 4 == 0;
  }

  lemma FloorStep(n: int, d: int)
    requires d == 4 || d == 100 || d == 400
    ensures (n + 1) / d == n / d + (if (n + 1) % d == 0 then 1 else 0)
  {
  }

  /** The closed count of days to a first of March is the year-by-year count. */
  lemma {:induction false} MarchStartCountsYears(year: int)
    ensures DaysBeforeYear(year) + 59 + (if IsLeap(year) then 1 else 0) == MarchStart(year) - DAYS_FROM_YEAR_0_TO_1970
    decreases if year < EPOCH_YEAR then EPOCH_YEAR - year else year - EPOCH_YEAR
  {
    if year > EPOCH_YEAR {
      MarchStartCountsYears(year - 1);
      MarchStep(year - 1);
    } else if year < EPOCH_YEAR {
      MarchStartCountsYears(year + 1);
      MarchStep(year);
    }
  }

  /** The month formula: day `dayOfYear` falls in month `monthIndex` counted from March. */
  lemma MonthOfDay(dayOfYear: int)
    requires 0 <= dayOfYear <= 365
    ensures var m := (5 * dayOfYear + 2) / DAYS_PER_5_MONTHS;
            var first := (DAYS_PER_5_MONTHS * m + 2) / 5;
            && 0 <= m <= 11
            && first == [0, 31, 61, 92, 122, 153, 184, 214, 245, 275, 306, 337][m]
            && first <= dayOfYear < [31, 61, 92, 122, 153, 184, 214, 245, 275, 306, 337, 366][m]
  {
    var m := (5 * dayOfYear + 2) / DAYS_PER_5_MONTHS;
    assert 153 * m <= 5 * dayOfYear + 2 < 153 * m + 153;
    assert m == 0 || m == 1 || m == 2 || m == 3 || m == 4 || m == 5
        || m == 6 || m == 7 || m == 8 || m == 9 || m == 10 || m == 11;
  }

  lemma DateFromMarchIsRight(year: int, dayOfYear: int)
    requires 0 <= dayOfYear <= 365
    requires dayOfYear == 365 ==> IsLeap(year + 1)
    ensures ValidDate(DateFromMarch(year, dayOfYear))
    ensures DayNumber(DateFromMarch(year, dayOfYear)) == MarchStart(year) - DAYS_FROM_YEAR_0_TO_1970 + dayOfYear
  {
    hide DaysBeforeYear, DaysBeforeMonth, MarchStart;
    MonthOfDay(dayOfYear);
    var d := DateFromMarch(year, dayOfYear);
    if d.month <= 2 {
      MarchStartCountsYears(year + 1);
      MarchStep(year);
      MonthSums(year + 1);
    } else {
      MarchStartCountsYears(year);
      MonthSums(year);
    }
  }

  lemma EraOfYear(era: int, yearOfEra: int)
    requires 0 <= yearOfEra < YEARS_PER_ERA
    ensures MarchStart(yearOfEra + era * YEARS_PER_ERA) == DAYS_PER_ERA * era + EraYearStart(yearOfEra)
  {
    var y := yearOfEra + era * YEARS_PER_ERA;
    assert y / 4 == 100 * era + yearOfEra / 4;
    assert y / 100 == 4 * era + yearOfEra / 100;
    assert y / 400 == era;
  }

  lemma LeapAtEndOfParts(era: int, c: int, q: int, a: int)
    requires EraParts(c, q, a, 365)
    ensures IsLeap(100 * c + 4 * q + a + era * YEARS_PER_ERA + 1)
  {
    var y := 100 * c + 4 * q + a + era * YEARS_PER_ERA + 1;
    assert y == 4 * (100 * era + 25 * c + q + 1);
    if q == 24 {
      assert y == 400 * (era + 1);
    } else {
      assert y == 100 * (4 * era + c) + 4 * (q + 1);
    }
  }

  /** What `civil` computes once the day of the era is split into its parts. */
  lemma DateOfDaysParts(days: int, c: int, q: int, a: int, r: int)
    requires EraParts(c, q, a, r)
    requires (days + DAYS_FROM_YEAR_0_TO_1970) % DAYS_PER_ERA == 36_524 * c + 1461 * q + 365 * a + r
    ensures var era := (days + DAYS_FROM_YEAR_0_TO_1970) / DAYS_PER_ERA;
            DateOfDays(days) == DateFromMarch(100 * c + 4 * q + a + era * YEARS_PER_ERA, r)
  {
    hide YearOfEra;
    YearOfEraParts(c, q, a, r);
    EraYearStartParts(c, q, a);
  }

  /** Every day number splits into the one real date that has it. */
  lemma DateOfDaysIsRight(days: int)
    ensures ValidDate(DateOfDays(days)) && DayNumber(DateOfDays(days)) == days
  {
    hide DateOfDays, DateFromMarch, YearOfEra, DayNumber, MarchStart, EraYearStart, IsLeap;
    var shifted := days + DAYS_FROM_YEAR_0_TO_1970;
    var era, dayOfEra := shifted / DAYS_PER_ERA, shifted % DAYS_PER_ERA;
    var c, q, a, r := SplitDayOfEra(dayOfEra);
    DateOfDaysParts(days, c, q, a, r);
    EraYearStartParts(c, q, a);
    EraOfYear(era, 100 * c + 4 * q + a);
    if r == 365 {
      LeapAtEndOfParts(era, c, q, a);
    }
    DateFromMarchIsRight(100 * c + 4 * q + a + era * YEARS_PER_ERA, r);
  }

  /** `civil` yields a real date and time that stands for the given second. */
  lemma CivilIsRight(seconds: int)
    ensures ValidCivil(CivilOf(seconds)) && SecondNumber(CivilOf(seconds)) == seconds
  {
    DateOfDaysIsRight(seconds / SECONDS_PER_DAY);
    ClockIsRight(seconds % SECONDS_PER_DAY);
  }

  lemma ClockIsRight(rest: int)
    requires 0 <= rest < SECONDS_PER_DAY
    ensures 0 <= rest / SECONDS_PER_HOUR < 24
    ensures 0 <= rest % SECONDS_PER_HOUR / SECONDS_PER_MINUTE < 60
    ensures rest / SECONDS_PER_HOUR * SECONDS_PER_HOUR
            + rest % SECONDS_PER_HOUR / SECONDS_PER_MINUTE * SECONDS_PER_MINUTE
            + rest % SECONDS_PER_MINUTE == rest
  {
    var h, m := rest / 3600, rest % 3600 / 60;
    assert rest == 3600 * h + rest % 3600;
    assert rest % 3600 == 60 * m + rest % 3600 % 60;
    assert rest % 60 == rest % 3600 % 60 by {
      assert rest == 60 * (60 * h + m) + rest % 3600 % 60;
    }
  }

  /** Times of day and dates are in the order of their seconds. */
  predicate Before(a: Civil, b: Civil) {
    || DateBefore(a.date, b.date)
    || (a.date == b.date &&
        (a.hour < b.hour ||
         (a.hour == b.hour && (a.minute < b.minute || (a.minute == b.minute && a.second < b.second)))))
  }

  lemma SecondNumberKeepsOrder(a: Civil, b: Civil)
    requires ValidCivil(a) && ValidCivil(b)
    ensures SecondNumber(a) < SecondNumber(b) <==> Before(a, b)
    ensures SecondNumber(a) == SecondNumber(b) ==> a == b
  {
    DayNumberKeepsOrder(a.date, b.date);
    if a.date == b.date {
      ClockOrder(a, b);
    }
  }

  lemma ClockOrder(a: Civil, b: Civil)
    requires ValidCivil(a) && ValidCivil(b) && a.date == b.date
    ensures SecondNumber(a) < SecondNumber(b) <==> Before(a, b)
    ensures SecondNumber(a) == SecondNumber(b) ==> a == b
  {
    hide DayNumber;
  }

  /** The other direction: `civil` gives back every real date and time. */
  lemma CivilInverts(c: Civil)
    requires ValidCivil(c)
    ensures CivilOf(SecondNumber(c)) == c
  {
    CivilIsRight(SecondNumber(c));
    SecondNumberKeepsOrder(CivilOf(SecondNumber(c)), c);
  }

  lemma CivilKeepsOrder(a: int, b: int)
    ensures a < b <==> Before(CivilOf(a), CivilOf(b))
  {
    CivilIsRight(a);
    CivilIsRight(b);
    SecondNumberKeepsOrder(CivilOf(a), CivilOf(b));
  }

  // ---- the year-by-year loop -----------------------------------------------

  /** `{:02}` of a number below 100. */
  function TwoDigits(n: int): string
    requires 0 <= n < 100
  {
    [Digit(n / 10), Digit(n % 10)]
  }

  /** Whole years first, as `month_day` subtracts them. */
  method TakeYears(days: nat) returns (year: int, day: nat)
    ensures EPOCH_YEAR <= year && day < YearLength(year)
    ensures DaysBeforeYear(year) + day == days
  {
    year, day := EPOCH_YEAR, days;
    while day >= YearLength(year)
      invariant EPOCH_YEAR <= year
      invariant DaysBeforeYear(year) + day == days
      decreases day
    {
      day := day - YearLength(year);
      year := year + 1;
    }
  }

  /** Then whole months; the last month takes whatever is left. */
  method TakeMonths(year: int, dayOfYear: nat) returns (index: nat, day: nat)
    requires dayOfYear < YearLength(year)
    ensures index < 12 && day < MonthLength(year, index)
    ensures DaysBeforeMonth(year, index) + day == dayOfYear
  {
    index, day := 0, dayOfYear;
    while day >= MonthLength(year, index) && index != |MONTHS| - 1
      invariant index < 12
      invariant DaysBeforeMonth(year, index) + day == dayOfYear
    {
      day := day - MonthLength(year, index);
      index := index + 1;
    }
    MonthSums(year);
  }

  /** `month_day`: its loops find the month and day that `civil` computes. */
  method MonthDay(epochSeconds: nat) returns (text: string)
    ensures var d := CivilOf(epochSeconds).date;
            && ValidDate(d)
            && text == MONTHS[d.month - 1].0 + TwoDigits(d.day)
  {
    hide DateOfDays, DaysBeforeYear, DaysBeforeMonth;
    var days := epochSeconds / SECONDS_PER_DAY;
    var year, dayOfYear := TakeYears(days);
    var index, day := TakeMonths(year, dayOfYear);
    DateOfDaysIsRight(days);
    DayNumberKeepsOrder(Date(year, index + 1, day + 1), DateOfDays(days));
    text := MONTHS[index].0 + TwoDigits(day + 1);
  }
}
