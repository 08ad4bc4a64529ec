/** The civil-date routine (crates/tmx-adapters/src/clock.rs and its second copy in store.rs) against the
    Gregorian calendar, day by day. */
module Calendar {

  const DAYS_PER_ERA: int := 146097
  const EPOCH_TO_ERA_OFFSET_DAYS: int := 719468

  datatype Date = Date(year: int, month: int, day: int)

  // ---------- The code ----------

  /** Integer division as Rust does it: towards zero. */
  function Quot(a: int, b: int): (q: int)
    requires b > 0
  {
    if a >= 0 then a / b else -((-a) / b)
  }

  /** `civil_from_days` in clock.rs. */
  function CivilFromDays(days: int): (date: Date) {
    var z := days + EPOCH_TO_ERA_OFFSET_DAYS;
    var era := Quot(if z >= 0 then z else z - (DAYS_PER_ERA - 1), DAYS_PER_ERA);
    CivilInEra(era, z - era * DAYS_PER_ERA)
  }

  /** The part of the routine that works inside one 400-year era. */
  function CivilInEra(era: int, doe: int): (date: Date) {
    var yoe := Quot(doe - Quot(doe, 1460) + Quot(doe, 36524) - Quot(doe, 146096), 365);
    var year := yoe + era * 400;
    var doy := doe - (365 * yoe + Quot(yoe, 4) - Quot(yoe, 100));
    CivilInYear(year, doy)
  }

  /** The part of the routine that works inside one year that starts in March. */
  function CivilInYear(year: int, doy: int): (date: Date) {
    var mp := Quot(5 * doy + 2, 153);
    var day := doy - Quot(153 * mp + 2, 5) + 1;
    var month := if mp < 10 then mp + 3 else mp - 9;
    Date(year + (if month <= 2 then 1 else 0), month, day)
  }

  /** `civil_from_days` in store.rs, over unsigned days; its year is clamped at zero. */
  function CivilFromDaysUnsigned(days: nat): (date: Date) {
    var z := days + 719468;
    var era := Quot(if z >= 0 then z else z - 146096, 146097);
    UnsignedInEra(era, z - era * 146097)
  }

  function UnsignedInEra(era: int, doe: int): (date: Date) {
    var yoe := Quot(doe - Quot(doe, 1460) + Quot(doe, 36524) - Quot(doe, 146096), 365);
    var year := yoe + era * 400;
    var doy := doe - (365 * yoe + Quot(yoe, 4) - Quot(yoe, 100));
    UnsignedInYear(year, doy)
  }

  function UnsignedInYear(year: int, doy: int): (date: Date) {
    var mp := Quot(5 * doy + 2, 153);
    var day := doy - Quot(153 * mp + 2, 5) + 1;
    var month := if mp < 10 then mp + 3 else mp - 9;
    var civil := if month <= 2 then year + 1 else year;
    Date(if civil > 0 then civil else 0, month, day)
  }

  // ---------- The Gregorian calendar ----------

  predicate IsLeap(year: int) {
    year % 4 == 0 && (year % 100 != 0 || year % 400 == 0)
  }

  function DaysInMonth(year: int, month: int): (n: int)
    requires 1 <= month <= 12
  {
    if month == 2 then (if IsLeap(year) then 29 else 28)
    else if month == 4 || month == 6 || month == 9 || month == 11 then 30
    else 31
  }

  predicate IsDate(d: Date) {
    1 <= d.month <= 12 && 1 <= d.day <= DaysInMonth(d.year, d.month)
  }

  function NextDay(d: Date): (n: Date)
    requires IsDate(d)
  {
    if d.day < DaysInMonth(d.year, d.month) then Date(d.year, d.month, d.day + 1)
    else if d.month < 12 then Date(d.year, d.month + 1, 1)
    else Date(d.year + 1, 1, 1)
  }

  predicate Before(a: Date, b: Date) {
    a.year < b.year || (a.year == b.year && (a.month < b.month || (a.month == b.month && a.day < b.day)))
  }

  // ---------- Years that start on the first of March ----------

  /** The days before year `y`, counting from the first of March of year 0. */
  function YearStart(y: int): (days: int) {
    365 * y + y / 4 - y / 100 + y / 400
  }

  lemma YearLength(y: int)
    ensures YearStart(y + 1) - YearStart(y) == if IsLeap(y + 1) then 366 else 365
  {
    StepQuotient(y, 4);
    StepQuotient(y, 100);
    StepQuotient(y, 400);
    NestedMultiples(y + 1);
  }

  lemma NestedMultiples(n: int)
    ensures n % 400 == 0 ==> n % 100 == 0
    ensures n % 100 == 0 ==> n % 4 == 0
  {
    if n % 400 == 0 {
      HundredsInLeapCycle(n / 400);
    }
    if n % 100 == 0 {
      FoursInCentury(n / 100);
    }
  }

  lemma HundredsInLeapCycle(k: int)
    ensures 400 * k % 100 == 0
  {
  }

  lemma FoursInCentury(k: int)
    ensures 100 * k % 4 == 0
  {
  }

  lemma StepQuotient(y: int, n: int)
    requires n == 4 || n == 100 || n == 400
    ensures (y + 1) / n - y / n == if (y + 1) % n == 0 then 1 else 0
  {
  }

  lemma {:induction false} YearStartsGrow(a: int, b: int)
    requires a <= b
    ensures YearStart(a) + 365 * (b - a) <= YearStart(b)
    decreases b - a
  {
    if a < b {
      YearLength(b - 1);
      YearStartsGrow(a, b - 1);
    }
  }

  lemma EraStart(yoe: int, era: int)
    ensures YearStart(yoe + 400 * era) == YearStart(yoe) + DAYS_PER_ERA * era
  {
    assert (yoe + 400 * era) / 4 == yoe / 4 + 100 * era;
    assert (yoe + 400 * era) / 100 == yoe / 100 + 4 * era;
    assert (yoe + 400 * era) / 400 == yoe / 400 + era;
  }

  /** A day number is its year's start plus its day in that year. */
  predicate IsSplit(z: int, y: int, doy: int) {
    z == YearStart(y) + doy && 0 <= doy < YearStart(y + 1) - YearStart(y)
  }

  lemma SplitIsUnique(z: int, y: int, doy: int, y': int, doy': int)
    requires IsSplit(z, y, doy) && IsSplit(z, y', doy')
    ensures y == y' && doy == doy'
  {
    if y < y' {
      YearStartsGrow(y + 1, y');
    } else if y' < y {
      YearStartsGrow(y' + 1, y);
    }
  }

  /** The year of the era, from centuries, four-year cycles and years. */
  lemma YearOfEra(doe: int) returns (y: int)
    requires 0 <= doe < DAYS_PER_ERA
    ensures 0 <= y < 400 && y == (doe - doe / 1460 + doe / 36524 - doe / 146096) / 365
    ensures IsSplit(doe, y, doe - YearStart(y))
  {
    var c := if doe == 146096 then 3 else doe / 36524;
    assert 0 <= c <= 3;
    var t := doe - 36524 * c;
    assert 0 <= t <= 36524 && (t == 36524 ==> c == 3);
    var q := t / 1461;
    var u := t - 1461 * q;
    assert 0 <= q <= 24 && 0 <= u <= 1460;
    var e := if 24 * c + q + u >= 1460 then 1 else 0;
    assert doe / 1460 == 25 * c + q + e;
    assert doe / 36524 - doe / 146096 == c;
    var r := (u - e) / 365;
    assert 0 <= r <= 3;
    y := 100 * c + 4 * q + r;
    assert doe - doe / 1460 + doe / 36524 - doe / 146096 == 365 * (100 * c + 4 * q) + (u - e);
    assert y / 4 == 25 * c + q && y / 100 == c && y / 400 == 0;
    assert YearStart(y) == 36524 * c + 1461 * q + 365 * r;
    YearLength(y);
    CycleEnd(c, q, r, u, e);
  }

  /** The last day of a four-year cycle exists exactly in leap years. */
  lemma CycleEnd(c: int, q: int, r: int, u: int, e: int)
    requires 0 <= c <= 3 && 0 <= q <= 24 && 0 <= u <= 1460 && r == (u - e) / 365
    requires e == if 24 * c + q + u >= 1460 then 1 else 0
    requires q == 24 && u == 1460 ==> c == 3
    ensures 0 <= u - 365 * r < if IsLeap(100 * c + 4 * q + r + 1) then 366 else 365
  {
    var y := 100 * c + 4 * q + r + 1;
    if u == 1460 {
      assert r == 3 && y == 100 * c + 4 * (q + 1);
      assert y % 4 == 0;
      if q < 24 {
        assert y % 100 == 4 * (q + 1);
      } else {
        assert y == 400;
      }
    }
  }

  /** The era and the day in it. */
  lemma EraAndDay(days: int) returns (era: int, doe: int)
    ensures 0 <= doe < DAYS_PER_ERA && days + EPOCH_TO_ERA_OFFSET_DAYS == doe + era * DAYS_PER_ERA
    ensures CivilFromDays(days) == CivilInEra(era, doe)
  {
    var z := days + EPOCH_TO_ERA_OFFSET_DAYS;
    era := Quot(if z >= 0 then z else z - (DAYS_PER_ERA - 1), DAYS_PER_ERA);
    doe := z - era * DAYS_PER_ERA;
  }

  lemma QuotientOfDays(doe: int)
    requires 0 <= doe < DAYS_PER_ERA
    ensures Quot(doe - Quot(doe, 1460) + Quot(doe, 36524) - Quot(doe, 146096), 365)
         == (doe - doe / 1460 + doe / 36524 - doe / 146096) / 365
  {
    assert doe - doe / 1460 + doe / 36524 - doe / 146096 >= 0;
  }

  lemma QuotientOfYears(y: int)
    requires 0 <= y < 400
    ensures 365 * y + Quot(y, 4) - Quot(y, 100) == YearStart(y)
  {
    assert y / 400 == 0;
  }

  /** The routine's year of the era, all quotients being of numbers that are not negative. */
  lemma QuotientsInEra(era: int, doe: int, yoe: int, y: int, doy: int)
    requires 0 <= doe < DAYS_PER_ERA && 0 <= yoe < 400
    requires yoe == (doe - doe / 1460 + doe / 36524 - doe / 146096) / 365
    requires y == yoe + era * 400 && doy == doe - YearStart(yoe)
    ensures CivilInEra(era, doe) == CivilInYear(y, doy)
  {
    QuotientOfDays(doe);
    QuotientOfYears(yoe);
  }

  lemma YearInEra(era: int, doe: int) returns (yoe: int, y: int, doy: int)
    requires 0 <= doe < DAYS_PER_ERA
    ensures y == yoe + era * 400 && doy == doe - YearStart(yoe) && IsSplit(doe, yoe, doy)
    ensures CivilInEra(era, doe) == CivilInYear(y, doy)
  {
    yoe := YearOfEra(doe);
    y := yoe + era * 400;
    doy := doe - YearStart(yoe);
    QuotientsInEra(era, doe, yoe, y, doy);
  }

  lemma InEra(era: int, doe: int) returns (y: int, doy: int)
    requires 0 <= doe < DAYS_PER_ERA
    ensures CivilInEra(era, doe) == CivilInYear(y, doy)
    ensures IsSplit(doe + era * DAYS_PER_ERA, y, doy)
  {
    var yoe;
    yoe, y, doy := YearInEra(era, doe);
    SplitInEra(era, doe, yoe, y, doy);
  }

  lemma SplitInEra(era: int, doe: int, yoe: int, y: int, doy: int)
    requires y == yoe + era * 400 && IsSplit(doe, yoe, doy)
    ensures IsSplit(doe + era * DAYS_PER_ERA, y, doy)
  {
    EraStart(yoe, era);
    EraStart(yoe + 1, era);
  }

  /** What the routine computes: the March-based year, the day in it, and the date there. */
  lemma YearAndDay(days: int) returns (y: int, doy: int)
    ensures IsSplit(days + EPOCH_TO_ERA_OFFSET_DAYS, y, doy) && 0 <= doy <= 365
    ensures CivilFromDays(days) == DateIn(y, doy)
  {
    var era, doe := EraAndDay(days);
    y, doy := InEra(era, doe);
    YearLength(y);
    SameDate(y, doy);
  }

  lemma SameDate(y: int, doy: int)
    requires 0 <= doy
    ensures CivilInYear(y, doy) == DateIn(y, doy)
  {
  }

  // ---------- Months ----------

  function MonthStart(mp: int): (doy: int) { (153 * mp + 2) / 5 }

  lemma MonthOf(doy: int)
    requires 0 <= doy <= 365
    ensures var mp := (5 * doy + 2) / 153;
            0 <= mp <= 11 && MonthStart(mp) <= doy < MonthStart(mp + 1)
  {
  }

  /** The date of a day in a March-based year. */
  function DateIn(y: int, doy: int): (d: Date) {
    var mp := (5 * doy + 2) / 153;
    var month := if mp < 10 then mp + 3 else mp - 9;
    Date(y + (if month <= 2 then 1 else 0), month, doy - MonthStart(mp) + 1)
  }

  lemma MonthIs(doy: int, mp: int)
    requires 0 <= mp <= 11 && MonthStart(mp) <= doy < MonthStart(mp + 1)
    ensures (5 * doy + 2) / 153 == mp
  {
  }

  /** Within a year the dates follow each other as the calendar says. */
  lemma NextInYear(y: int, doy: int)
    requires 0 <= doy < YearStart(y + 1) - YearStart(y)
    ensures IsDate(DateIn(y, doy))
    ensures NextDay(DateIn(y, doy))
         == if doy + 1 < YearStart(y + 1) - YearStart(y) then DateIn(y, doy + 1) else DateIn(y + 1, 0)
  {
    YearLength(y);
    MonthOf(doy);
    var mp := (5 * doy + 2) / 153;
    MonthLengths(y, mp);
    if doy + 1 < MonthStart(mp + 1) {
      MonthIs(doy + 1, mp);
    } else if mp < 11 {
      MonthIs(doy + 1, mp + 1);
    }
  }

  lemma MonthLengths(y: int, mp: int)
    requires 0 <= mp <= 11
    ensures var d := DateIn(y, MonthStart(mp));
            && (mp < 11 ==> MonthStart(mp + 1) - MonthStart(mp) == DaysInMonth(d.year, d.month))
            && (mp == 11 ==> MonthStart(mp) == 337 && d.month == 2 && d.year == y + 1)
            && d.day == 1 && d.month == (if mp < 10 then mp + 3 else mp - 9)
            && d.year == y + (if mp < 10 then 0 else 1)
  {
    MonthIs(MonthStart(mp), mp);
  }

  // ---------- Main results ----------

  /** The days of two consecutive day numbers. */
  lemma ConsecutiveSplits(z: int, y: int, doy: int, y': int, doy': int)
    requires IsSplit(z, y, doy) && IsSplit(z + 1, y', doy')
    ensures IsDate(DateIn(y, doy)) && DateIn(y', doy') == NextDay(DateIn(y, doy))
  {
    NextInYear(y, doy);
    if doy + 1 < YearStart(y + 1) - YearStart(y) {
      SplitIsUnique(z + 1, y, doy + 1, y', doy');
    } else {
      YearLength(y + 1);
      SplitIsUnique(z + 1, y + 1, 0, y', doy');
    }
  }

  /** Every day's date is a date of the calendar, and the next day's date is the calendar's next. */
  lemma CivilIsGregorian(days: int)
    ensures IsDate(CivilFromDays(days))
    ensures CivilFromDays(days + 1) == NextDay(CivilFromDays(days))
  {
    var y, doy := YearAndDay(days);
    var y', doy' := YearAndDay(days + 1);
    ConsecutiveSplits(days + EPOCH_TO_ERA_OFFSET_DAYS, y, doy, y', doy');
  }

  /** Day 0 is the first of January 1970. */
  lemma EpochIs1970()
    ensures CivilFromDays(0) == Date(1970, 1, 1)
  {
  }

  lemma NextIsLater(d: Date)
    requires IsDate(d)
    ensures Before(d, NextDay(d))
  {
  }

  lemma BeforeIsTransitive(a: Date, b: Date, c: Date)
    requires Before(a, b) && Before(b, c)
    ensures Before(a, c)
  {
  }

  predicate LaterNext(date: int -> Date, day: int) { Before(date(day), date(day + 1)) }

  lemma {:induction false} LaterFromStep(date: int -> Date, a: int, b: int)
    requires a < b && forall k | a <= k < b :: LaterNext(date, k)
    ensures Before(date(a), date(b))
    decreases b - a
  {
    assert LaterNext(date, b - 1);
    if a < b - 1 {
      LaterFromStep(date, a, b - 1);
      BeforeIsTransitive(date(a), date(b - 1), date(b));
    }
  }

  lemma NextDateIsLater(day: int)
    ensures Before(CivilFromDays(day), CivilFromDays(day + 1))
  {
    CivilIsGregorian(day);
    NextIsLater(CivilFromDays(day));
  }

  /** Later days have later dates. */
  lemma CivilIsMonotone(a: int, b: int)
    requires a < b
    ensures Before(CivilFromDays(a), CivilFromDays(b))
  {
    forall k | a <= k < b
      ensures LaterNext(CivilFromDays, k)
    {
      NextDateIsLater(k);
    }
    LaterFromStep(CivilFromDays, a, b);
  }

  /** The March-based year of a date, and the day in it. */
  lemma DayOfDate(y: int, month: int, day: int) returns (year: int, doy: int)
    requires IsDate(Date(y, month, day))
    ensures DateIn(year, doy) == Date(y, month, day)
    ensures 0 <= doy < YearStart(year + 1) - YearStart(year)
  {
    var mp := if month >= 3 then month - 3 else month + 9;
    year := if month >= 3 then y else y - 1;
    doy := MonthStart(mp) + day - 1;
    MonthLengths(year, mp);
    YearLength(year);
    MonthIs(doy, mp);
  }

  /** Every date of the calendar is reached. */
  lemma EveryDateIsReached(y: int, month: int, day: int) returns (days: int)
    requires IsDate(Date(y, month, day))
    ensures CivilFromDays(days) == Date(y, month, day)
  {
    var year, doy := DayOfDate(y, month, day);
    days := YearStart(year) + doy - EPOCH_TO_ERA_OFFSET_DAYS;
    var y', doy' := YearAndDay(days);
    SplitIsUnique(days + EPOCH_TO_ERA_OFFSET_DAYS, year, doy, y', doy');
  }

  function Clamped(d: Date): (c: Date) { Date(if d.year > 0 then d.year else 0, d.month, d.day) }

  lemma SameInYear(year: int, doy: int)
    ensures UnsignedInYear(year, doy) == Clamped(CivilInYear(year, doy))
  {
  }

  lemma SameInEra(era: int, doe: int)
    ensures UnsignedInEra(era, doe) == Clamped(CivilInEra(era, doe))
  {
    var yoe := Quot(doe - Quot(doe, 1460) + Quot(doe, 36524) - Quot(doe, 146096), 365);
    SameInYear(yoe + era * 400, doe - (365 * yoe + Quot(yoe, 4) - Quot(yoe, 100)));
  }

  /** The two routines differ only in that the second clamps the year. */
  lemma SameUpToClamp(days: nat)
    ensures CivilFromDaysUnsigned(days) == Clamped(CivilFromDays(days))
  {
    var z := days + EPOCH_TO_ERA_OFFSET_DAYS;
    var era := Quot(if z >= 0 then z else z - (DAYS_PER_ERA - 1), DAYS_PER_ERA);
    SameInEra(era, z - era * DAYS_PER_ERA);
  }

  /** The second copy agrees on every day from the epoch on. */
  lemma CopiesAgree(days: nat)
    ensures CivilFromDaysUnsigned(days) == CivilFromDays(days)
    ensures CivilFromDays(days).year >= 1970
  {
    EpochIs1970();
    if days > 0 {
      CivilIsMonotone(0, days);
    }
    SameUpToClamp(days);
  }
}
