/** The civil-date conversion of `now_iso8601`: a closed form from a day count to a Gregorian date,
    proved against a calendar that counts years, months and days one at a time. */
module Calendar {

  datatype Date = Date(year: int, month: int, day: int)

  const EPOCH := Date(1970, 1, 1)

  // ---------------------------------------------------------------------------
  // The reference calendar
  // ---------------------------------------------------------------------------

  predicate IsLeap(y: int) {
    y % 4 == 0 && (y % 100 != 0 || y % 400 == 0)
  }

  function YearLength(y: int): int {
    if IsLeap(y) then 366 else 365
  }

  function MonthLength(y: int, m: int): int {
    if m == 2 then (if IsLeap(y) then 29 else 28)
    else if m in {4, 6, 9, 11} then 30
    else 31
  }

  predicate Valid(d: Date) {
    1 <= d.month <= 12 && 1 <= d.day <= MonthLength(d.year, d.month)
  }

  /** The calendar successor of a date. */
  function NextDay(d: Date): (r: Date)
    requires Valid(d)
    ensures Valid(r)
  {
    if d.day < MonthLength(d.year, d.month) then d.(day := d.day + 1)
    else if d.month < 12 then Date(d.year, d.month + 1, 1)
    else Date(d.year + 1, 1, 1)
  }

  /** The date reached by stepping the calendar `n` days forward from `d`. */
  function Walk(d: Date, n: nat): (r: Date)
    requires Valid(d)
    ensures Valid(r)
  {
    if n == 0 then d else NextDay(Walk(d, n - 1))
  }

  /** Days from 1 January 1970 to 1 January of `y`, one year length at a time. */
  function DaysBeforeYear(y: int): int
    decreases if y < 1970 then 1970 - y else y - 1970
  {
    if y == 1970 then 0
    else if y > 1970 then DaysBeforeYear(y - 1) + YearLength(y - 1)
    else DaysBeforeYear(y + 1) - YearLength(y)
  }

  /** Days of year `y` before month `m`, one month length at a time. */
  function DaysBeforeMonth(y: int, m: int): int
    decreases m
  {
    if m <= 1 then 0 else DaysBeforeMonth(y, m - 1) + MonthLength(y, m - 1)
  }

  /** The day count of a date, written without reference to the closed form. */
  function DayNumber(d: Date): int {
    DaysBeforeYear(d.year) + DaysBeforeMonth(d.year, d.month) + d.day - 1
  }

  predicate Before(a: Date, b: Date) {
    a.year < b.year ||
    (a.year == b.year && (a.month < b.month || (a.month == b.month && a.day < b.day)))
  }

  // ---------------------------------------------------------------------------
  // The closed form
  // ---------------------------------------------------------------------------

  /** Integer division as Rust's `/` computes it: truncation toward zero. */
  function TruncDiv(a: int, b: int): int
    requires b > 0
  {
    if a >= 0 then a / b else -(-a / b)
  }

  function EraOf(z: int): int {
    TruncDiv(if z >= 0 then z else z - 146_096, 146_097)
  }

  function YearOfEra(doe: int): int {
    TruncDiv(doe - TruncDiv(doe, 1_460) + TruncDiv(doe, 36_524) - TruncDiv(doe, 146_096), 365)
  }

  function DayOfYear(doe: int): int {
    var yoe := YearOfEra(doe);
    doe - (365 * yoe + TruncDiv(yoe, 4) - TruncDiv(yoe, 100))
  }

  function MonthIndex(doy: int): int {
    TruncDiv(5 * doy + 2, 153)
  }

  /** The date of day `doy` of the year that starts on 1 March of `year`. */
  function DateOfYearDay(year: int, doy: int): Date {
    var mp := MonthIndex(doy);
    var day := doy - TruncDiv(153 * mp + 2, 5) + 1;
    var month := if mp < 10 then mp + 3 else mp - 9;
    Date(if month <= 2 then year + 1 else year, month, day)
  }

  function CivilFromDays(days: int): Date {
    var z := days + 719_468;
    var era := EraOf(z);
    var doe := z - era * 146_097;
    DateOfYearDay(YearOfEra(doe) + era * 400, DayOfYear(doe))
  }

  // ---------------------------------------------------------------------------
  // The closed form's intermediate values
  // ---------------------------------------------------------------------------

  /** The branch for negative `z` turns truncating division into floor division. */
  lemma EraIsFloor(z: int)
    ensures EraOf(z) == z / 146_097
    ensures 0 <= z - EraOf(z) * 146_097 < 146_097
  {}

  /** First day of year-of-era `y`, when years run from 1 March. */
  function YearStart(y: int): int {
    365 * y + y / 4 - y / 100 + y / 400
  }

  /** `doe` as century `c`, four-year cycle `q` and day of cycle `g`; the last day of the era
      belongs to century 3. */
  lemma CyclesOfEra(doe: int) returns (c: int, q: int, g: int)
    requires 0 <= doe < 146_097
    ensures doe == 36_524 * c + 1_461 * q + g
    ensures 0 <= c <= 3 && 0 <= q <= 24 && 0 <= g <= 1_460
    ensures c < 3 && q == 24 ==> g < 1_460
    ensures doe / 36_524 - doe / 146_096 == c
    ensures doe / 1_460 == 25 * c + q + (if g >= 1_460 - q - 24 * c then 1 else 0)
  {
    c := if doe == 146_096 then 3 else doe / 36_524;
    var f := doe - 36_524 * c;
    q, g := f / 1_461, f % 1_461;
    assert doe == 1_460 * (25 * c + q) + (24 * c + q + g);
  }

  /** The nested quotient picks the year of the era that holds day `doe`. */
  lemma YearOfEraBrackets(doe: int)
    requires 0 <= doe < 146_097
    ensures 0 <= YearOfEra(doe) < 400
    ensures YearStart(YearOfEra(doe)) <= doe < YearStart(YearOfEra(doe) + 1)
  {
    var c, q, g := CyclesOfEra(doe);
    var bump := if g >= 1_460 - q - 24 * c then 1 else 0;
    var t := (g - bump) / 365;
    assert YearOfEra(doe) == 100 * c + 4 * q + t;
    YearStartOfCycle(c, q, t);
    YearStartOfCycle(c, q, t + 1);
  }

  /** The first day of year `t` of a four-year cycle; `t == 4` is the first year of the next. */
  lemma YearStartOfCycle(c: int, q: int, t: int)
    requires 0 <= c <= 3 && 0 <= q <= 24 && 0 <= t <= 4
    ensures YearStart(100 * c + 4 * q + t) == 36_524 * c + 1_461 * q + 365 * t +
            (if t == 4 && (q < 24 || c == 3) then 1 else 0)
  {
    var y := 100 * c + 4 * q + t;
    if t < 4 {
      assert y / 4 == 25 * c + q && y / 100 == c && y / 400 == 0;
    } else if q < 24 {
      assert y / 4 == 25 * c + q + 1 && y / 100 == c && y / 400 == 0;
    } else {
      assert y == 100 * (c + 1);
    }
  }

  /** The quotient `(5 doy + 2) / 153` picks the March-based month that holds day `doy`. */
  lemma MonthIndexBrackets(doy: int)
    requires 0 <= doy <= 365
    ensures 0 <= MonthIndex(doy) <= 11
    ensures (153 * MonthIndex(doy) + 2) / 5 <= doy
    ensures MonthIndex(doy) < 11 ==> doy < (153 * (MonthIndex(doy) + 1) + 2) / 5
  {}

  /** The day of the March-based year; 365 only when that year ends in a leap February. */
  lemma DayOfYearRange(doe: int)
    requires 0 <= doe < 146_097
    ensures var y := YearOfEra(doe);
            DayOfYear(doe) == doe - YearStart(y) &&
            0 <= DayOfYear(doe) <= (if IsLeap(y + 1) then 365 else 364)
  {
    YearOfEraBrackets(doe);
    YearStartStep(YearOfEra(doe));
  }

  /** Every value the closed form computes on the way lies between `low` and `high`. */
  predicate IntermediatesWithin(days: int, low: int, high: int) {
    var z := days + 719_468;
    var doe := z - EraOf(z) * 146_097;
    Within(DayValues(z), low, high) && Within(EraValues(doe), low, high) &&
    Within(DateValues(EraOf(z) * 400, YearOfEra(doe)), low, high) && Within(YearValues(DayOfYear(doe)), low, high)
  }

  function DayValues(z: int): seq<int> {
    [z, if z >= 0 then z else z - 146_096, EraOf(z), EraOf(z) * 146_097, z - EraOf(z) * 146_097]
  }

  function DateValues(start: int, yoe: int): seq<int> {
    [start, yoe + start, yoe + start + 1]
  }

  function EraValues(doe: int): seq<int> {
    var a, b, c := TruncDiv(doe, 1_460), TruncDiv(doe, 36_524), TruncDiv(doe, 146_096);
    var yoe := YearOfEra(doe);
    var leap := TruncDiv(yoe, 4);
    [a, b, c, doe - a, doe - a + b, doe - a + b - c, yoe, 365 * yoe, leap, TruncDiv(yoe, 100), 365 * yoe + leap,
     365 * yoe + leap - TruncDiv(yoe, 100), DayOfYear(doe)]
  }

  function YearValues(doy: int): seq<int> {
    var mp := MonthIndex(doy);
    var start := TruncDiv(153 * mp + 2, 5);
    [5 * doy, 5 * doy + 2, mp, 153 * mp, 153 * mp + 2, start, doy - start, doy - start + 1, mp + 3, mp - 9]
  }

  predicate Within(values: seq<int>, low: int, high: int) {
    forall v | v in values :: low <= v <= high
  }

  /** Up to day `n` no intermediate value leaves the interval from -1000000 to `n + 1000000`. */
  lemma IntermediatesBounded(days: int, n: int)
    requires 0 <= days <= n
    ensures IntermediatesWithin(days, -1_000_000, n + 1_000_000)
  {
    var low, high, z := -1_000_000, n + 1_000_000, days + 719_468;
    EraIsFloor(z);
    var era := EraOf(z);
    var doe := z - era * 146_097;
    hide DayValues, EraValues, DateValues, YearValues, EraOf, YearOfEra, DayOfYear, Within;
    DayValuesBounded(z, low, high);
    EraValuesBounded(doe, low, high);
    DateValuesBounded(era, doe, low, high);
    YearValuesBounded(doe, low, high);
  }

  lemma DayValuesBounded(z: int, low: int, high: int)
    requires low <= -146_096 && 0 <= z <= high && high >= 146_097
    ensures Within(DayValues(z), low, high) && 0 <= EraOf(z) * 400 <= z
  {
    EraIsFloor(z);
    hide EraOf;
  }

  lemma DateValuesBounded(era: int, doe: int, low: int, high: int)
    requires 0 <= doe < 146_097 && low <= 0 && 0 <= era * 400 <= high - 1_000
    ensures Within(DateValues(era * 400, YearOfEra(doe)), low, high)
  {
    YearOfEraBrackets(doe);
    hide YearOfEra;
  }

  lemma EraValuesBounded(doe: int, low: int, high: int)
    requires 0 <= doe < 146_097 && low <= -1_000_000 && high >= 1_000_000
    ensures Within(EraValues(doe), low, high)
  {
    YearOfEraBrackets(doe);
    DayOfYearRange(doe);
    hide YearOfEra, DayOfYear;
  }

  lemma YearValuesBounded(doe: int, low: int, high: int)
    requires 0 <= doe < 146_097 && low <= -1_000_000 && high >= 1_000_000
    ensures Within(YearValues(DayOfYear(doe)), low, high)
  {
    DayOfYearRange(doe);
    MonthIndexBrackets(DayOfYear(doe));
    hide DayOfYear, MonthIndex;
  }

  /** A March-based year is 366 days long exactly when the next January's year is a leap year. */
  lemma YearStartStep(y: int)
    ensures YearStart(y + 1) - YearStart(y) == YearLength(y + 1)
  {
    QuotientStep(y, 4);
    QuotientStep(y, 100);
    QuotientStep(y, 400);
    MultiplesNest(y + 1);
  }

  lemma MultiplesNest(y: int)
    ensures y % 400 == 0 ==> y % 100 == 0
    ensures y % 100 == 0 ==> y % 4 == 0
  {}

  lemma QuotientStep(y: int, k: int)
    requires k in {4, 100, 400}
    ensures (y + 1) / k == y / k + (if (y + 1) % k == 0 then 1 else 0)
  {}

  // ---------------------------------------------------------------------------
  // The reference count, in closed form
  // ---------------------------------------------------------------------------

  /** The year-by-year count, summed: 1 March of year `y` is day `YearStart(y) - 719468`. */
  lemma {:induction false} YearCountSums(y: int)
    ensures DaysBeforeYear(y + 1) + 719_468 == YearStart(y) + 306
    decreases if y < 1969 then 1969 - y else y - 1969
  {
    if y > 1969 {
      YearCountSums(y - 1);
      YearStartStep(y - 1);
    } else if y < 1969 {
      YearCountSums(y + 1);
      YearStartStep(y);
    }
  }

  /** 1 January on either side of the 1 March that starts year `y`. */
  lemma JanuaryFirst(y: int)
    ensures DaysBeforeYear(y) + 719_468 == YearStart(y) - 59 - (if IsLeap(y) then 1 else 0)
    ensures DaysBeforeYear(y + 1) + 719_468 == YearStart(y) + 306
  {
    YearCountSums(y);
    YearCountSums(y - 1);
    YearStartStep(y - 1);
  }

  /** The month-by-month count, summed: months from March on start at `(153 mp + 2) / 5`. */
  lemma MonthCountSums(y: int, m: int)
    requires 3 <= m <= 12
    ensures DaysBeforeMonth(y, m) == (153 * (m - 3) + 2) / 5 + DaysBeforeMonth(y, 3)
    ensures DaysBeforeMonth(y, 3) == (if IsLeap(y) then 60 else 59)
    decreases m
  {}

  // ---------------------------------------------------------------------------
  // The closed form refines the reference calendar
  // ---------------------------------------------------------------------------

  /** Month and day from the day of the March-based year `y`. */
  lemma DateOfYearDayCounts(y: int, doy: int)
    requires 0 <= doy <= (if IsLeap(y + 1) then 365 else 364)
    ensures Valid(DateOfYearDay(y, doy))
    ensures DayNumber(DateOfYearDay(y, doy)) + 719_468 == YearStart(y) + doy
  {
    MonthIndexBrackets(doy);
    JanuaryFirst(y);
    hide YearStart, DaysBeforeYear;
    var mp := MonthIndex(doy);
    if mp < 10 {
      MonthCountSums(y, mp + 3);
    } else {
      assert DaysBeforeMonth(y + 1, 2) == 31;
    }
  }

  lemma WholePeriods(y: int, k: int, n: int)
    requires k in {4, 100, 400}
    ensures (y + n * k) / k == y / k + n && (y + n * k) % k == y % k
  {}

  /** The calendar repeats every 400 years, 146097 days. */
  lemma EraShift(y: int, era: int)
    ensures YearStart(y + era * 400) == YearStart(y) + era * 146_097
    ensures IsLeap(y + 1 + era * 400) == IsLeap(y + 1)
  {
    WholePeriods(y, 4, era * 100);
    WholePeriods(y, 100, era * 4);
    WholePeriods(y, 400, era);
    WholePeriods(y + 1, 4, era * 100);
    WholePeriods(y + 1, 100, era * 4);
    WholePeriods(y + 1, 400, era);
  }

  /** The date computed for any day count is a valid date, and counting its years, months and
      days one at a time gives back the day count. */
  lemma CivilFromDaysCounts(days: int)
    ensures Valid(CivilFromDays(days))
    ensures DayNumber(CivilFromDays(days)) == days
  {
    var z := days + 719_468;
    EraIsFloor(z);
    hide EraOf, DateOfYearDay, Valid, DayNumber, YearOfEra, DayOfYear, YearStart, IsLeap;
    var era := EraOf(z);
    var doe := z - era * 146_097;
    DayOfYearRange(doe);
    var yoe, doy := YearOfEra(doe), DayOfYear(doe);
    EraShift(yoe, era);
    DateOfYearDayCounts(yoe + era * 400, doy);
    assert CivilFromDays(days) == DateOfYearDay(yoe + era * 400, doy);
  }

  lemma {:induction false} YearsCountUp(a: int, b: int)
    requires a < b
    ensures DaysBeforeYear(a) + YearLength(a) <= DaysBeforeYear(b)
    decreases b - a
  {
    if a + 1 < b {
      YearsCountUp(a, b - 1);
    }
    assert DaysBeforeYear(b) == DaysBeforeYear(b - 1) + YearLength(b - 1);
  }

  /** A day of the year lies in the year. */
  lemma DayWithinYear(d: Date)
    requires Valid(d)
    ensures 0 <= DaysBeforeMonth(d.year, d.month) + d.day - 1 < YearLength(d.year)
  {
    if d.month >= 3 {
      MonthCountSums(d.year, d.month);
    } else {
      assert DaysBeforeMonth(d.year, 2) == 31;
    }
  }

  lemma {:induction false} MonthsCountUp(y: int, a: int, b: int)
    requires 1 <= a < b <= 12
    ensures DaysBeforeMonth(y, a) + MonthLength(y, a) <= DaysBeforeMonth(y, b)
    decreases b
  {
    if a + 1 < b {
      MonthsCountUp(y, a, b - 1);
    }
    assert DaysBeforeMonth(y, b) == DaysBeforeMonth(y, b - 1) + MonthLength(y, b - 1);
  }

  /** The reference count is strictly monotone in calendar order. */
  lemma DayNumberMonotone(a: Date, b: Date)
    requires Valid(a) && Valid(b) && Before(a, b)
    ensures DayNumber(a) < DayNumber(b)
  {
    if a.year < b.year {
      YearsCountUp(a.year, b.year);
      DayWithinYear(a);
      DayWithinYear(b);
    } else if a.month < b.month {
      MonthsCountUp(a.year, a.month, b.month);
    }
  }

  /** The reference count of the next day is one more. */
  lemma DayNumberOfNextDay(d: Date)
    requires Valid(d)
    ensures DayNumber(NextDay(d)) == DayNumber(d) + 1
  {
    if d.day == MonthLength(d.year, d.month) && d.month == 12 {
      MonthCountSums(d.year, 12);
      assert DaysBeforeYear(d.year + 1) == DaysBeforeYear(d.year) + YearLength(d.year);
    }
  }

  /** The other half of the bijection: every valid date is the date of its own day count. */
  lemma CivilFromDaysInverts(d: Date)
    requires Valid(d)
    ensures CivilFromDays(DayNumber(d)) == d
  {
    var r := CivilFromDays(DayNumber(d));
    CivilFromDaysCounts(DayNumber(d));
    if Before(r, d) {
      DayNumberMonotone(r, d);
    } else if Before(d, r) {
      DayNumberMonotone(d, r);
    }
  }

  /** For every day count, negative ones included, the date of the day after is the calendar
      successor: across month ends, leap days, century years and era boundaries. */
  lemma NextDayCount(days: int)
    ensures Valid(CivilFromDays(days))
    ensures CivilFromDays(days + 1) == NextDay(CivilFromDays(days))
  {
    CivilFromDaysCounts(days);
    hide CivilFromDays, DayNumber, NextDay;
    DayNumberOfNextDay(CivilFromDays(days));
    CivilFromDaysInverts(NextDay(CivilFromDays(days)));
  }

  lemma {:induction false} WalkCounts(d: Date, n: nat)
    requires Valid(d)
    ensures DayNumber(Walk(d, n)) == DayNumber(d) + n
  {
    if n > 0 {
      WalkCounts(d, n - 1);
      DayNumberOfNextDay(Walk(d, n - 1));
    }
  }

  /** Stepping the calendar `n` days forward from the date of any day count. */
  lemma WalkFromDays(days: int, n: nat)
    ensures Valid(CivilFromDays(days))
    ensures CivilFromDays(days + n) == Walk(CivilFromDays(days), n)
  {
    CivilFromDaysCounts(days);
    hide CivilFromDays, DayNumber, Walk;
    WalkCounts(CivilFromDays(days), n);
    CivilFromDaysInverts(Walk(CivilFromDays(days), n));
  }

  lemma EpochIsDayZero()
    ensures Valid(EPOCH) && CivilFromDays(0) == EPOCH
  {
    CivilFromDaysInverts(EPOCH);
  }

  /** The closed form is the stepped calendar: `days` steps forward from 1 January 1970, or,
      for a negative count, the date that reaches 1 January 1970 in `-days` steps. */
  lemma ClosedFormIsSteppedCalendar(days: int)
    ensures days >= 0 ==> CivilFromDays(days) == Walk(EPOCH, days)
    ensures Valid(CivilFromDays(days))
    ensures days < 0 ==> Walk(CivilFromDays(days), -days) == EPOCH
  {
    CivilFromDaysCounts(days);
    EpochIsDayZero();
    hide *;
    if days >= 0 {
      WalkFromDays(0, days);
    } else {
      WalkFromDays(days, -days);
    }
  }

  /** Calendar order of dates is the order of day counts. */
  lemma DateOrderIsDayOrder(a: int, b: int)
    ensures Before(CivilFromDays(a), CivilFromDays(b)) <==> a < b
  {
    CivilFromDaysCounts(a);
    CivilFromDaysCounts(b);
    hide CivilFromDays, DayNumber;
    var x, y := CivilFromDays(a), CivilFromDays(b);
    if Before(x, y) {
      DayNumberMonotone(x, y);
    } else if Before(y, x) {
      DayNumberMonotone(y, x);
    }
  }
}
