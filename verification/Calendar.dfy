/** Days since the epoch as Gregorian dates. */
module Calendar {
  import Bits

  datatype Date = Date(year: int, month: int, day: int)

  function YearOfEra(doe: int): int {
    (doe - doe / 1460 + doe / 36524 - doe / 146096) / 365
  }

  /** The date of a day of the year that starts on 1 March of `year`. */
  function MarchDate(year: int, doy: int): Date {
    var mp := (5 * doy + 2) / 153;
    var day := doy - (153 * mp + 2) / 5 + 1;
    var month := if mp < 10 then mp + 3 else mp - 9;
    Date(if month <= 2 then year + 1 else year, month, day)
  }

  /** Days since 1970-01-01 to a date, by eras of 400 years. */
  function CivilFromDays(days: int): Date {
    var z := days + 719468;
    var era := z / 146097;
    var doe := z % 146097;
    var yoe := YearOfEra(doe);
    MarchDate(yoe + era * 400, doe - (365 * yoe + yoe / 4 - yoe / 100))
  }

  // ----- the calendar as everyone knows it -----

  predicate IsLeap(year: int) {
    year % 4 == 0 && (year % 100 != 0 || year % 400 == 0)
  }

  function MonthLength(year: int, month: int): int {
    if month == 2 then (if IsLeap(year) then 29 else 28)
    else if month == 4 || month == 6 || month == 9 || month == 11 then 30
    else 31
  }

  function YearLength(year: int): int {
    if IsLeap(year) then 366 else 365
  }

  predicate Valid(d: Date) {
    1 <= d.month <= 12 && 1 <= d.day <= MonthLength(d.year, d.month)
  }

  /** The day after. */
  function Next(d: Date): Date {
    if d.day < MonthLength(d.year, d.month) then Date(d.year, d.month, d.day + 1)
    else if d.month < 12 then Date(d.year, d.month + 1, 1)
    else Date(d.year + 1, 1, 1)
  }

  /** Days from 1970-01-01 to the start of `year`, counted year by year. */
  function DaysToYear(year: int): int
    decreases if year >= 1970 then year - 1970 else 1970 - year
  {
    if year == 1970 then 0
    else if year > 1970 then DaysToYear(year - 1) + YearLength(year - 1)
    else DaysToYear(year + 1) - YearLength(year)
  }

  /** Days from the start of the year to the start of `month`, counted month by month. */
  function DaysToMonth(year: int, month: int): int
    requires 1 <= month <= 12
  {
    if month == 1 then 0 else DaysToMonth(year, month - 1) + MonthLength(year, month - 1)
  }

  /** The number of a date, counting whole years, then whole months, then days. */
  function DayNumber(d: Date): int
    requires 1 <= d.month <= 12
  {
    DaysToYear(d.year) + DaysToMonth(d.year, d.month) + d.day - 1
  }

  // ----- years within an era -----

  function YearStart(y: int): int {
    365 * y + y / 4 - y / 100
  }

  function YearEnd(y: int): int {
    if y == 399 then 146097 else YearStart(y + 1)
  }

  lemma {:induction false} YearParts(c: int, k: int, j: int)
    requires 0 <= c <= 3 && 0 <= k <= 24 && 0 <= j <= 3
    ensures YearStart(100 * c + 4 * k + j) == 36524 * c + 1461 * k + 365 * j
  {
    assert (100 * c + 4 * k + j) / 4 == 25 * c + k;
    assert (100 * c + 4 * k + j) / 100 == c;
  }

  lemma {:induction false} YearFormula(c: int, k: int, s: int, j: int)
    requires 0 <= c <= 3 && 0 <= k <= 24 && 0 <= s <= 1460 && 1461 * k + s < 36524
    requires 0 <= j <= 3 && 365 * j <= s && (s < 365 * j + 365 || (s == 1460 && j == 3))
    ensures YearOfEra(36524 * c + 1461 * k + s) == 100 * c + 4 * k + j
  {
    var doe := 36524 * c + 1461 * k + s;
    var e := if 24 * c + k + s >= 1460 then 1 else 0;
    assert doe / 1460 == 25 * c + k + e;
    assert doe / 36524 == c;
    assert doe / 146096 == 0;
    assert 365 * j <= s - e < 365 * j + 365;
    assert doe - doe / 1460 + doe / 36524 - doe / 146096 == 365 * (100 * c + 4 * k + j) + (s - e - 365 * j);
  }

  /** A day of the era by centuries, groups of four years, years and days. */
  lemma {:induction false} DayParts(doe: int) returns (c: int, k: int, s: int, j: int)
    requires 0 <= doe < 146096
    ensures 0 <= c <= 3 && 0 <= k <= 24 && 0 <= s <= 1460 && 1461 * k + s < 36524
    ensures 0 <= j <= 3 && 365 * j <= s && (s < 365 * j + 365 || (s == 1460 && j == 3))
    ensures doe == 36524 * c + 1461 * k + s
  {
    c := doe / 36524;
    var r := doe % 36524;
    k := r / 1461;
    s := r % 1461;
    j := if s == 1460 then 3 else s / 365;
  }

  lemma {:induction false} PartsInYear(c: int, k: int, s: int, j: int)
    requires 0 <= c <= 3 && 0 <= k <= 24 && 0 <= s <= 1460 && 1461 * k + s < 36524
    requires 0 <= j <= 3 && 365 * j <= s && (s < 365 * j + 365 || (s == 1460 && j == 3))
    ensures YearStart(100 * c + 4 * k + j) <= 36524 * c + 1461 * k + s < YearEnd(100 * c + 4 * k + j)
  {
    hide YearStart;
    YearParts(c, k, j);
    if j < 3 {
      YearParts(c, k, j + 1);
    } else if k < 24 {
      YearParts(c, k + 1, 0);
    } else if c < 3 {
      YearParts(c + 1, 0, 0);
    }
  }

  lemma {:induction false} LastDay()
    ensures YearOfEra(146096) == 399 && YearStart(399) == 145731
  {
  }

  /** The year the formula picks holds the day. */
  lemma {:induction false} YearHoldsDay(doe: int)
    requires 0 <= doe < 146097
    ensures 0 <= YearOfEra(doe) <= 399
    ensures YearStart(YearOfEra(doe)) <= doe < YearEnd(YearOfEra(doe))
  {
    hide YearOfEra, YearStart;
    if doe < 146096 {
      var c, k, s, j := DayParts(doe);
      YearFormula(c, k, s, j);
      PartsInYear(c, k, s, j);
    } else {
      LastDay();
    }
  }

  lemma {:induction false} FourthStep(y: int)
    requires 0 <= y
    ensures (y + 1) / 4 == y / 4 + if (y + 1) % 4 == 0 then 1 else 0
  {
  }

  lemma {:induction false} HundredthStep(y: int)
    requires 0 <= y
    ensures (y + 1) / 100 == y / 100 + if (y + 1) % 100 == 0 then 1 else 0
    ensures (y + 1) % 100 == 0 ==> (y + 1) % 4 == 0
  {
  }

  lemma {:induction false} StartStep(y: int)
    requires 0 <= y
    ensures YearStart(y) + 365 <= YearStart(y + 1)
  {
    FourthStep(y);
    HundredthStep(y);
  }

  lemma {:induction false} StartMonotone(a: int, b: int)
    requires 0 <= a < b
    ensures YearStart(a) + 365 <= YearStart(b)
    decreases b - a
  {
    hide YearStart;
    StartStep(b - 1);
    if a < b - 1 {
      StartMonotone(a, b - 1);
    }
  }

  /** Only one year of the era holds a day. */
  lemma {:induction false} YearUnique(doe: int, y: int)
    requires 0 <= doe < 146097 && 0 <= y <= 399 && YearStart(y) <= doe < YearEnd(y)
    ensures YearOfEra(doe) == y
  {
    YearHoldsDay(doe);
    hide YearStart, YearOfEra;
    var x := YearOfEra(doe);
    if x < y {
      if x + 1 < y {
        StartMonotone(x + 1, y);
      }
    } else if y < x {
      if y + 1 < x {
        StartMonotone(y + 1, x);
      }
    }
  }

  /** A year of the era, from March, is long exactly when its February is in a leap year. */
  lemma {:induction false} LengthInEra(y: int, era: int)
    requires 0 <= y <= 399
    ensures YearEnd(y) - YearStart(y) == YearLength(y + era * 400 + 1)
  {
    var n := y + 1;
    LeapInEra(n, era);
    assert n % 4 == 0 ==> n / 4 == y / 4 + 1;
    assert n % 4 != 0 ==> n / 4 == y / 4;
    assert n % 100 == 0 ==> n / 100 == y / 100 + 1;
    assert n % 100 != 0 ==> n / 100 == y / 100;
  }

  lemma {:induction false} LeapInEra(n: int, era: int)
    ensures IsLeap(n + era * 400) == IsLeap(n)
  {
    Bits.ModShift(n, era * 100, 4);
    Bits.ModShift(n, era * 4, 100);
    Bits.ModShift(n, era, 400);
  }

  // ----- months -----

  function MonthStart(mp: int): int {
    (153 * mp + 2) / 5
  }

  lemma {:induction false} MonthHoldsDay(doy: int)
    requires 0 <= doy <= 365
    ensures var mp := (5 * doy + 2) / 153;
            0 <= mp <= 11 && MonthStart(mp) <= doy < MonthStart(mp + 1)
  {
  }

  lemma {:induction false} MonthUnique(doy: int, mp: int)
    requires 0 <= doy <= 365 && 0 <= mp <= 11 && MonthStart(mp) <= doy < MonthStart(mp + 1)
    ensures (5 * doy + 2) / 153 == mp
  {
  }

  function MarchMonth(mp: int): int {
    if mp < 10 then mp + 3 else mp - 9
  }

  lemma {:induction false} MonthSpan(year: int, mp: int)
    requires 0 <= mp <= 10
    ensures MonthStart(mp + 1) - MonthStart(mp) == MonthLength(if mp < 10 then year else year + 1, MarchMonth(mp))
    ensures MonthStart(11) == 337
  {
  }

  /** One day on within a March-based year. */
  lemma {:induction false} NextInYear(year: int, doy: int)
    requires 0 <= doy && doy + 1 < YearLength(year + 1)
    ensures MarchDate(year, doy + 1) == Next(MarchDate(year, doy))
  {
    hide IsLeap;
    var mp := (5 * doy + 2) / 153;
    MonthHoldsDay(doy);
    if mp < 11 {
      MonthSpan(year, mp);
    } else {
      MonthSpan(year, 0);
    }
    if doy + 1 < MonthStart(mp + 1) {
      MonthUnique(doy + 1, mp);
    } else {
      MonthUnique(doy + 1, mp + 1);
    }
  }

  /** From the last day of February to 1 March. */
  lemma {:induction false} NextYear(year: int)
    ensures MarchDate(year + 1, 0) == Next(MarchDate(year, YearLength(year + 1) - 1))
  {
    hide IsLeap;
  }

  lemma {:induction false} MarchValid(year: int, doy: int)
    requires 0 <= doy < YearLength(year + 1)
    ensures Valid(MarchDate(year, doy))
  {
    hide IsLeap;
    var mp := (5 * doy + 2) / 153;
    MonthHoldsDay(doy);
    if mp < 11 {
      MonthSpan(year, mp);
    } else {
      MonthSpan(year, 0);
    }
  }

  // ----- the algorithm against the calendar -----

  lemma {:induction false} EraParts(z: int, era: int, doe: int)
    requires z == 146097 * era + doe && 0 <= doe < 146097
    ensures z / 146097 == era && z % 146097 == doe
  {
  }

  /** The era, year of era and day of year of a day number. */
  lemma {:induction false} Located(days: int, era: int, yoe: int, doy: int)
    requires 0 <= yoe <= 399 && 0 <= doy < YearLength(yoe + era * 400 + 1)
    requires days + 719468 == era * 146097 + YearStart(yoe) + doy
    ensures CivilFromDays(days) == MarchDate(yoe + era * 400, doy)
  {
    hide IsLeap, YearLength, YearOfEra, MarchDate, CivilFromDays, YearStart;
    LengthInEra(yoe, era);
    var doe := YearStart(yoe) + doy;
    EndBound(yoe);
    StartBound(yoe);
    EraParts(days + 719468, era, doe);
    YearUnique(doe, yoe);
    FromParts(days, era, yoe, doy);
  }

  lemma {:induction false} FromParts(days: int, era: int, yoe: int, doy: int)
    requires (days + 719468) / 146097 == era && (days + 719468) % 146097 == YearStart(yoe) + doy
    requires YearOfEra(YearStart(yoe) + doy) == yoe
    ensures CivilFromDays(days) == MarchDate(yoe + era * 400, doy)
  {
    hide YearOfEra, MarchDate;
  }

  lemma {:induction false} EndBound(y: int)
    requires 0 <= y <= 399
    ensures YearEnd(y) <= 146097
  {
    if y < 399 {
      hide YearStart;
      if y + 1 < 399 {
        StartMonotone(y + 1, 399);
      }
      assert YearStart(399) <= 146097 by {
        Start399();
      }
    }
  }

  lemma {:induction false} Start399()
    ensures YearStart(399) == 145731
  {
  }

  lemma {:induction false} StartBound(y: int)
    requires 0 <= y
    ensures 0 <= YearStart(y)
  {
  }

  lemma {:induction false} Locate(days: int) returns (era: int, yoe: int, doy: int)
    ensures 0 <= yoe <= 399 && 0 <= doy < YearLength(yoe + era * 400 + 1)
    ensures days + 719468 == era * 146097 + YearStart(yoe) + doy
  {
    var z := days + 719468;
    era := z / 146097;
    var doe := z % 146097;
    YearHoldsDay(doe);
    hide YearOfEra, IsLeap;
    yoe := YearOfEra(doe);
    doy := doe - YearStart(yoe);
    LengthInEra(yoe, era);
  }

  /** Every day number gives a date of the Gregorian calendar. */
  lemma {:induction false} CivilValid(days: int)
    ensures Valid(CivilFromDays(days))
  {
    hide CivilFromDays, MarchDate, IsLeap, YearStart;
    var era, yoe, doy := Locate(days);
    Located(days, era, yoe, doy);
    MarchValid(yoe + era * 400, doy);
  }

  /** The next day number gives the next calendar date. */
  lemma {:induction false} CivilSuccessor(days: int)
    ensures CivilFromDays(days + 1) == Next(CivilFromDays(days))
  {
    hide CivilFromDays, MarchDate, IsLeap, YearStart, Next;
    var era, yoe, doy := Locate(days);
    Located(days, era, yoe, doy);
    var year := yoe + era * 400;
    LengthInEra(yoe, era);
    if doy + 1 < YearLength(year + 1) {
      Located(days + 1, era, yoe, doy + 1);
      NextInYear(year, doy);
    } else {
      NextYear(year);
      YearPositive(year + 2);
      if yoe < 399 {
        Located(days + 1, era, yoe + 1, 0);
      } else {
        StartZero();
        Located(days + 1, era + 1, 0, 0);
      }
    }
  }

  lemma {:induction false} YearPositive(year: int)
    ensures YearLength(year) >= 365
  {
  }

  lemma {:induction false} StartZero()
    ensures YearStart(0) == 0
  {
  }

  lemma {:induction false} CivilEpoch()
    ensures CivilFromDays(0) == Date(1970, 1, 1)
  {
  }

  // ----- counting days -----

  lemma {:induction false} DaysToNextYear(year: int)
    ensures DaysToYear(year + 1) == DaysToYear(year) + YearLength(year)
  {
    hide YearLength;
  }

  lemma {:induction false} DaysToDecember(year: int)
    ensures DaysToMonth(year, 12) + 31 == YearLength(year)
  {
    hide IsLeap;
    var feb := MonthLength(year, 2);
    assert DaysToMonth(year, 2) == 31;
    assert DaysToMonth(year, 3) == 31 + feb;
    assert DaysToMonth(year, 4) == 62 + feb;
    assert DaysToMonth(year, 5) == 92 + feb;
    assert DaysToMonth(year, 6) == 123 + feb;
    assert DaysToMonth(year, 7) == 153 + feb;
    assert DaysToMonth(year, 8) == 184 + feb;
    assert DaysToMonth(year, 9) == 215 + feb;
    assert DaysToMonth(year, 10) == 245 + feb;
    assert DaysToMonth(year, 11) == 276 + feb;
  }

  lemma {:induction false} NextNumber(d: Date)
    requires Valid(d)
    ensures Valid(Next(d)) && DayNumber(Next(d)) == DayNumber(d) + 1
  {
    hide IsLeap, DaysToYear;
    DaysToNextYear(d.year);
    DaysToDecember(d.year);
  }

  lemma {:induction false} EpochNumber()
    ensures DayNumber(Date(1970, 1, 1)) == 0
  {
  }

  /** Counting whole years, months and days from the epoch to the date gives the day number back. */
  lemma {:induction false} CountBack(days: int)
    ensures 1 <= CivilFromDays(days).month <= 12 && DayNumber(CivilFromDays(days)) == days
    decreases if days >= 0 then days else -days
  {
    CivilValid(days);
    hide CivilFromDays, Next, DayNumber, MonthLength;
    if days == 0 {
      CivilEpoch();
      EpochNumber();
    } else if days > 0 {
      CountBack(days - 1);
      CivilValid(days - 1);
      CivilSuccessor(days - 1);
      NextNumber(CivilFromDays(days - 1));
    } else {
      CountBack(days + 1);
      CivilSuccessor(days);
      NextNumber(CivilFromDays(days));
    }
  }

  predicate Before(a: Date, b: Date) {
    a.year < b.year || (a.year == b.year && (a.month < b.month || (a.month == b.month && a.day < b.day)))
  }

  lemma {:induction false} MonthsGrow(year: int, a: int, b: int)
    requires 1 <= a < b <= 12
    ensures DaysToMonth(year, a) + MonthLength(year, a) <= DaysToMonth(year, b)
    decreases b
  {
    hide IsLeap;
    if a + 1 < b {
      MonthsGrow(year, a, b - 1);
    }
  }

  lemma {:induction false} WithinYear(d: Date)
    requires Valid(d)
    ensures 0 <= DaysToMonth(d.year, d.month) + d.day - 1 < YearLength(d.year)
  {
    hide IsLeap;
    DaysToDecember(d.year);
    if d.month < 12 {
      MonthsGrow(d.year, d.month, 12);
    }
    if 1 < d.month {
      MonthsGrow(d.year, 1, d.month);
    }
  }

  lemma {:induction false} YearsGrow(a: int, b: int)
    requires a < b
    ensures DaysToYear(a) + YearLength(a) <= DaysToYear(b)
    decreases b - a
  {
    hide YearLength, DaysToYear;
    DaysToNextYear(b - 1);
    if a + 1 < b {
      YearsGrow(a, b - 1);
      YearPositive(b - 1);
    }
  }

  /** Earlier dates have smaller numbers. */
  lemma {:induction false} NumberMonotone(a: Date, b: Date)
    requires Valid(a) && Valid(b) && Before(a, b)
    ensures DayNumber(a) < DayNumber(b)
  {
    hide DaysToYear, DaysToMonth, IsLeap;
    WithinYear(a);
    WithinYear(b);
    if a.year < b.year {
      YearsGrow(a.year, b.year);
    } else if a.month < b.month {
      MonthsGrow(a.year, a.month, b.month);
    }
  }

  /** The conversion is onto: every calendar date is the date of its number. */
  lemma {:induction false} CivilOfNumber(d: Date)
    requires Valid(d)
    ensures CivilFromDays(DayNumber(d)) == d
  {
    hide CivilFromDays, DayNumber;
    var n := DayNumber(d);
    var e := CivilFromDays(n);
    CivilValid(n);
    CountBack(n);
    if Before(d, e) {
      NumberMonotone(d, e);
    } else if Before(e, d) {
      NumberMonotone(e, d);
    }
  }

  /** Day order is calendar order. */
  lemma {:induction false} CivilMonotone(a: int, b: int)
    requires a < b
    ensures Before(CivilFromDays(a), CivilFromDays(b))
  {
    hide CivilFromDays, DayNumber;
    CivilValid(a);
    CivilValid(b);
    CountBack(a);
    CountBack(b);
    var d, e := CivilFromDays(a), CivilFromDays(b);
    if Before(e, d) {
      NumberMonotone(e, d);
    }
  }
}
