/** The query window of `current_week_covid_level`: `last_week` is `today`
    minus seven days, and both dates are written into the SoQL `where`
    clause in ISO form. Dates follow Python's `datetime.date`: the
    proleptic Gregorian calendar, years 1 to 9999, day 1 being 0001-01-01. */
module DateWindow {
  import opened Results

  const MinYear: int := 1
  const MaxYear: int := 9999

  /** Days in the window the script looks back over. */
  const WindowDays: nat := 7

  datatype Date = Date(year: int, month: int, day: int)

  /** `date - timedelta(...)` leaving the supported range raises
      `OverflowError`. */
  datatype DateError = OutOfRange

  predicate IsLeap(y: int) {
    y % 4 == 0 && (y % 100 != 0 || y % 400 == 0)
  }

  function DaysInMonth(y: int, m: int): (r: int)
    requires 1 <= m <= 12
    ensures 28 <= r <= 31
    ensures r == 29 <==> m == 2 && IsLeap(y)
  {
    if m == 2 then (if IsLeap(y) then 29 else 28)
    else if m == 4 || m == 6 || m == 9 || m == 11 then 30
    else 31
  }

  function DaysInYear(y: int): int {
    if IsLeap(y) then 366 else 365
  }

  predicate Valid(d: Date) {
    && MinYear <= d.year <= MaxYear
    && 1 <= d.month <= 12
    && 1 <= d.day <= DaysInMonth(d.year, d.month)
  }

  /** Days in the years before `y`, as Python's `_days_before_year`. */
  function DaysBeforeYear(y: int): int
    requires y >= 1
  {
    var z := y - 1;
    z * 365 + z / 4 - z / 100 + z / 400
  }

  /** Days in the months of year `y` before month `m`, as Python's
      `_days_before_month`: a fixed table for a common year, plus one for
      months after February in a leap year. */
  function DaysBeforeMonth(y: int, m: int): int
    requires 1 <= m <= 12
  {
    var table := [0, 31, 59, 90, 120, 151, 181, 212, 243, 273, 304, 334];
    table[m - 1] + (if m > 2 && IsLeap(y) then 1 else 0)
  }

  /** The table adds up the month lengths. */
  lemma MonthStep(y: int, m: int)
    requires 1 <= m < 12
    ensures DaysBeforeMonth(y, m + 1) == DaysBeforeMonth(y, m) + DaysInMonth(y, m)
  {
  }

  /** Day `m`'s month ends no later than the previous month ends plus its
      own length, step by step: month ends never go backwards. */
  lemma {:induction false} MonthsMonotone(y: int, m1: int, m2: int)
    requires 1 <= m1 < m2 <= 12
    ensures DaysBeforeMonth(y, m1) + DaysInMonth(y, m1) <= DaysBeforeMonth(y, m2)
    decreases m2 - m1
  {
    MonthStep(y, m1);
    if m1 + 1 < m2 {
      MonthsMonotone(y, m1 + 1, m2);
    }
  }

  /** The months of a year add up to the year. */
  lemma MonthsFillYear(y: int)
    ensures DaysBeforeMonth(y, 12) + DaysInMonth(y, 12) == DaysInYear(y)
  {
  }

  /** A valid day falls within its year: its day of the year is between 1
      and the year's length. */
  lemma DayOfYearBounds(d: Date)
    requires Valid(d)
    ensures 1 <= DaysBeforeMonth(d.year, d.month) + d.day <= DaysInYear(d.year)
  {
    MonthsFillYear(d.year);
    if d.month < 12 {
      MonthsMonotone(d.year, d.month, 12);
    }
  }

  /** `date.toordinal()`: 0001-01-01 is day 1. A date's day number lies in
      the span of its year. */
  function Ordinal(d: Date): (r: int)
    requires Valid(d)
    ensures DaysBeforeYear(d.year) < r <= DaysBeforeYear(d.year) + DaysInYear(d.year)
  {
    DayOfYearBounds(d);
    DaysBeforeYear(d.year) + DaysBeforeMonth(d.year, d.month) + d.day
  }

  /** `z / k` grows by one exactly when `k` divides `z`, for the three
      divisors of the Gregorian rule. */
  lemma QuarterStep(z: int)
    requires z >= 1
    ensures z / 4 - (z - 1) / 4 == if z % 4 == 0 then 1 else 0
  {
  }

  lemma CenturyStep(z: int)
    requires z >= 1
    ensures z / 100 - (z - 1) / 100 == if z % 100 == 0 then 1 else 0
  {
  }

  lemma QuadCenturyStep(z: int)
    requires z >= 1
    ensures z / 400 - (z - 1) / 400 == if z % 400 == 0 then 1 else 0
  {
  }

  /** A multiple of 400 is a multiple of 100. */
  lemma CenturyOfQuadCentury(z: int)
    requires z % 400 == 0
    ensures z % 100 == 0
  {
    var m := z / 400;
    assert z == 100 * (4 * m);
  }

  /** A multiple of 100 is a multiple of 4. */
  lemma QuarterOfCentury(z: int)
    requires z % 100 == 0
    ensures z % 4 == 0
  {
    var m := z / 100;
    assert z == 4 * (25 * m);
  }

  /** Consecutive years are `DaysInYear` apart. */
  lemma YearStep(y: int)
    requires y >= 2
    ensures DaysBeforeYear(y) == DaysBeforeYear(y - 1) + DaysInYear(y - 1)
  {
    QuarterStep(y - 1);
    CenturyStep(y - 1);
    QuadCenturyStep(y - 1);
    var z := y - 1;
    if z % 400 == 0 {
      CenturyOfQuadCentury(z);
    }
    if z % 100 == 0 {
      QuarterOfCentury(z);
    }
  }

  /** A year ends no later than any later year begins. */
  lemma {:induction false} YearsMonotone(y1: int, y2: int)
    requires 1 <= y1 < y2
    ensures DaysBeforeYear(y1) + DaysInYear(y1) <= DaysBeforeYear(y2)
    decreases y2 - y1
  {
    YearStep(y1 + 1);
    if y1 + 1 < y2 {
      YearsMonotone(y1 + 1, y2);
    }
  }

  /** Calendar order: by year, then month, then day. */
  predicate Before(a: Date, b: Date) {
    || a.year < b.year
    || (a.year == b.year && a.month < b.month)
    || (a.year == b.year && a.month == b.month && a.day < b.day)
  }

  /** Day numbers follow the calendar: an earlier date has a smaller one. */
  lemma OrdinalOrder(a: Date, b: Date)
    requires Valid(a) && Valid(b)
    ensures Before(a, b) <==> Ordinal(a) < Ordinal(b)
  {
    if a.year < b.year {
      YearsMonotone(a.year, b.year);
    } else if b.year < a.year {
      YearsMonotone(b.year, a.year);
    } else if a.month < b.month {
      MonthsMonotone(a.year, a.month, b.month);
    } else if b.month < a.month {
      MonthsMonotone(a.year, b.month, a.month);
    }
  }

  /** Different dates have different day numbers. */
  lemma OrdinalInjective(a: Date, b: Date)
    requires Valid(a) && Valid(b)
    ensures Ordinal(a) == Ordinal(b) <==> a == b
  {
    OrdinalOrder(a, b);
    OrdinalOrder(b, a);
  }

  lemma DaysBeforeYearPositive(y: int)
    requires y >= 1
    ensures DaysBeforeYear(y) >= 365 * (y - 1)
    ensures DaysBeforeYear(y) == 0 <==> y == 1
  {
    var z := y - 1;
    assert z / 4 >= z / 100;
  }

  /** Every valid date is on or after day 1, and only 0001-01-01 is day 1. */
  lemma OrdinalPositive(d: Date)
    requires Valid(d)
    ensures Ordinal(d) >= 1
    ensures Ordinal(d) == 1 <==> d == Date(1, 1, 1)
  {
    DaysBeforeYearPositive(d.year);
  }

  /** The day before `d`, failing before 0001-01-01. */
  function PrevDay(d: Date): (r: Result<Date, DateError>)
    requires Valid(d)
    ensures r.Failure? <==> d == Date(MinYear, 1, 1)
    ensures r.Success? ==> Valid(r.value) && Ordinal(r.value) + 1 == Ordinal(d)
  {
    if d.day > 1 then
      Success(d.(day := d.day - 1))
    else if d.month > 1 then
      PrevAcrossMonth(d);
      Success(Date(d.year, d.month - 1, DaysInMonth(d.year, d.month - 1)))
    else if d.year > MinYear then
      PrevAcrossYear(d);
      Success(Date(d.year - 1, 12, 31))
    else Failure(OutOfRange)
  }

  /** The first of a month follows the last day of the month before. */
  lemma PrevAcrossMonth(d: Date)
    requires Valid(d) && d.day == 1 && d.month > 1
    ensures var p := Date(d.year, d.month - 1, DaysInMonth(d.year, d.month - 1));
            Valid(p) && Ordinal(p) + 1 == Ordinal(d)
  {
    MonthStep(d.year, d.month - 1);
  }

  /** 1 January follows 31 December of the year before. */
  lemma PrevAcrossYear(d: Date)
    requires Valid(d) && d.day == 1 && d.month == 1 && d.year > MinYear
    ensures var p := Date(d.year - 1, 12, 31);
            Valid(p) && Ordinal(p) + 1 == Ordinal(d)
  {
    YearStep(d.year);
    MonthsFillYear(d.year - 1);
  }

  /** `d - timedelta(days=n)`, one day at a time. */
  function MinusDays(d: Date, n: nat): (r: Result<Date, DateError>)
    requires Valid(d)
    ensures r.Success? ==> Valid(r.value)
    decreases n
  {
    if n == 0 then Success(d)
    else match PrevDay(d)
      case Failure(e) => Failure(e)
      case Success(p) => MinusDays(p, n - 1)
  }

  /** Subtracting `n` days moves the day number back by `n`, and fails
      (`OverflowError`) exactly when that would go below day 1. */
  lemma {:induction false} MinusDaysOrdinal(d: Date, n: nat)
    requires Valid(d)
    ensures MinusDays(d, n).Failure? <==> Ordinal(d) <= n
    ensures MinusDays(d, n).Success? ==> Ordinal(MinusDays(d, n).value) + n == Ordinal(d)
    decreases n
  {
    if n == 0 {
      OrdinalPositive(d);
    } else if d == Date(MinYear, 1, 1) {
      assert PrevDay(d).Failure?;
      assert MinusDays(d, n).Failure?;
    } else {
      var p := PrevDay(d).value;
      OrdinalPositive(d);
      MinusDaysOrdinal(p, n - 1);
      assert MinusDays(d, n) == MinusDays(p, n - 1);
    }
  }

  /** `d - n days` is the one valid date whose day number is `n` less. */
  lemma MinusDaysCharacterised(d: Date, n: nat, e: Date)
    requires Valid(d)
    ensures MinusDays(d, n) == Success(e) <==> Valid(e) && Ordinal(e) + n == Ordinal(d)
  {
    MinusDaysOrdinal(d, n);
    if Valid(e) && Ordinal(e) + n == Ordinal(d) {
      OrdinalInjective(e, MinusDays(d, n).value);
    }
  }

  /** The decimal digit of `n`. */
  function DigitChar(n: int): char
    requires 0 <= n <= 9
  {
    ('0' as int + n) as char
  }

  function Pow10(w: nat): (r: nat)
    ensures r >= 1
  {
    if w == 0 then 1 else 10 * Pow10(w - 1)
  }

  /** `'%0*d' % (w, n)`: `n` in decimal, zero-padded to `w` digits. */
  function ZeroPad(n: nat, w: nat): (r: string)
    ensures |r| == w
    ensures forall i :: 0 <= i < w ==> '0' <= r[i] <= '9'
  {
    if w == 0 then "" else ZeroPad(n / 10, w - 1) + [DigitChar(n % 10)]
  }

  /** The number a string of decimal digits spells. */
  function DigitsValue(s: string): int
  {
    if |s| == 0 then 0 else 10 * DigitsValue(s[..|s| - 1]) + (s[|s| - 1] as int - '0' as int)
  }

  /** Zero padding loses nothing when the number fits the width. */
  lemma {:induction false} ZeroPadValue(n: nat, w: nat)
    requires n < Pow10(w)
    ensures DigitsValue(ZeroPad(n, w)) == n
  {
    if w > 0 {
      ZeroPadValue(n / 10, w - 1);
      var s := ZeroPad(n, w);
      assert s[..|s| - 1] == ZeroPad(n / 10, w - 1);
    }
  }

  /** `str(date)`, that is `date.isoformat()`: `YYYY-MM-DD`. */
  function Iso(d: Date): (r: string)
    requires Valid(d)
    ensures |r| == 10 && r[4] == '-' && r[7] == '-'
    ensures forall i :: 0 <= i < 10 && i != 4 && i != 7 ==> '0' <= r[i] <= '9'
  {
    ZeroPad(d.year, 4) + "-" + ZeroPad(d.month, 2) + "-" + ZeroPad(d.day, 2)
  }

  /** Reads a `YYYY-MM-DD` string back into a date. */
  function ParseIso(s: string): Option<Date>
  {
    if |s| == 10 && s[4] == '-' && s[7] == '-' then
      var d := Date(DigitsValue(s[..4]), DigitsValue(s[5..7]), DigitsValue(s[8..]));
      if Valid(d) then Some(d) else None
    else None
  }

  /** The ISO form of a date determines the date. */
  lemma IsoRoundTrip(d: Date)
    requires Valid(d)
    ensures ParseIso(Iso(d)) == Some(d)
  {
    var s := Iso(d);
    assert s[..4] == ZeroPad(d.year, 4);
    assert s[5..7] == ZeroPad(d.month, 2);
    assert s[8..] == ZeroPad(d.day, 2);
    ZeroPadValue(d.year, 4);
    ZeroPadValue(d.month, 2);
    ZeroPadValue(d.day, 2);
  }

  /** The SoQL text for a window from `lastWeek` to `today`. */
  function Clause(lastWeek: Date, today: Date): string
    requires Valid(lastWeek) && Valid(today)
  {
    "date_updated between \"" + Iso(lastWeek) + "\" and \"" + Iso(today) + "\""
  }

  /** The SoQL clause `date_updated between "<last_week>" and "<today>"`,
      or the `OverflowError` of computing `last_week`. */
  function WhereClause(today: Date): (r: Result<string, DateError>)
    requires Valid(today)
    ensures r.Failure? <==> Ordinal(today) <= WindowDays
    ensures r.Success? ==>
              exists lastWeek: Date ::
                && Valid(lastWeek)
                && Ordinal(lastWeek) + WindowDays == Ordinal(today)
                && r.value == Clause(lastWeek, today)
  {
    MinusDaysOrdinal(today, WindowDays);
    match MinusDays(today, WindowDays)
    case Failure(e) => Failure(e)
    case Success(lastWeek) => Success(Clause(lastWeek, today))
  }

  /** Any valid date seven days before `today` is the one the clause names. */
  lemma WhereClauseNames(today: Date)
    requires Valid(today)
    ensures forall lastWeek: Date :: Valid(lastWeek) && Ordinal(lastWeek) + WindowDays == Ordinal(today) ==>
              WhereClause(today) == Success(Clause(lastWeek, today))
  {
    forall lastWeek: Date | Valid(lastWeek) && Ordinal(lastWeek) + WindowDays == Ordinal(today)
      ensures WhereClause(today) == Success(Clause(lastWeek, today))
    {
      MinusDaysCharacterised(today, WindowDays, lastWeek);
    }
  }

  /** Seven days before 2024-03-15 is 2024-03-08. */
  lemma MidMonthExample()
    ensures MinusDays(Date(2024, 3, 15), WindowDays) == Success(Date(2024, 3, 8))
  {
    assert MinusDays(Date(2024, 3, 8), 0) == Success(Date(2024, 3, 8));
  }

  lemma MidMonthClause()
    ensures WhereClause(Date(2024, 3, 15))
              == Success("date_updated between \"" + "2024-03-08" + "\" and \"" + "2024-03-15" + "\"")
  {
    var lastWeek, today := Date(2024, 3, 8), Date(2024, 3, 15);
    assert WhereClause(today) == Success(Clause(lastWeek, today)) by {
      MidMonthExample();
    }
    IsoExamples();
  }

  lemma YearDigits()
    ensures ZeroPad(2024, 4) == "2024"
  {
    assert ZeroPad(2, 1) == "2";
    assert ZeroPad(20, 2) == "20";
    assert ZeroPad(202, 3) == "202";
  }

  lemma MonthDayDigits()
    ensures ZeroPad(3, 2) == "03"
    ensures ZeroPad(8, 2) == "08"
    ensures ZeroPad(15, 2) == "15"
  {
    assert ZeroPad(0, 1) == "0";
    assert ZeroPad(1, 1) == "1";
  }

  lemma IsoExamples()
    ensures Iso(Date(2024, 3, 8)) == "2024-03-08"
    ensures Iso(Date(2024, 3, 15)) == "2024-03-15"
  {
    YearDigits();
    MonthDayDigits();
  }

  /** The window crosses into February 29 of a leap year. */
  lemma LeapMonthExample()
    ensures MinusDays(Date(2024, 3, 3), WindowDays) == Success(Date(2024, 2, 25))
  {
    assert MinusDays(Date(2024, 2, 25), 0) == Success(Date(2024, 2, 25));
  }

  /** The window crosses New Year. */
  lemma NewYearExample()
    ensures MinusDays(Date(2024, 1, 3), WindowDays) == Success(Date(2023, 12, 27))
  {
    assert MinusDays(Date(2023, 12, 27), 0) == Success(Date(2023, 12, 27));
  }

  /** In the first week of year 1 there is no `last_week`. */
  lemma FirstWeekOverflows()
    ensures WhereClause(Date(1, 1, 7)).Failure?
    ensures WhereClause(Date(1, 1, 8)).Success?
  {
  }
}
