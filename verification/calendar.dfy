/** The part of JavaScript's `Date` that the task board uses, in local time.

    A valid date is a `Moment`: an absolute day number (day 0 is 1970-01-01,
    a Thursday) and the milliseconds elapsed since that day's midnight.
    Calendar fields (year, month, day of month, weekday) are derived from the
    day number with the proleptic Gregorian calendar, so month and year
    rollover become plain arithmetic on day numbers. */
module Calendar {

  /** Milliseconds in one day. */
  const MsPerDay: int := 86_400_000

  type TimeOfDay = ms: int | 0 <= ms < MsPerDay

  /** A valid date: a day number and a time of day. */
  datatype Moment = Moment(day: int, ms: TimeOfDay)

  /** A `Date` object: valid, or the "Invalid Date" whose time value is NaN. */
  datatype Date = Valid(at: Moment) | Invalid

  /** `getTime()` of a valid date, counted from the local epoch. */
  function TimeValue(m: Moment): int
  {
    m.day * MsPerDay + m.ms
  }

  /** Time values order moments by day first and by time of day second. */
  lemma TimeValueOrder(a: Moment, b: Moment)
    ensures TimeValue(a) <= TimeValue(b) <==> a.day < b.day || (a.day == b.day && a.ms <= b.ms)
  {
    if a.day < b.day {
      assert TimeValue(a) < (a.day + 1) * MsPerDay <= TimeValue(b);
    } else if a.day > b.day {
      assert TimeValue(b) < (b.day + 1) * MsPerDay <= TimeValue(a);
    }
  }

  /** Two moments have the same time value exactly when they are equal. */
  lemma TimeValueInjective(a: Moment, b: Moment)
    ensures TimeValue(a) == TimeValue(b) <==> a == b
  {
    TimeValueOrder(a, b);
    TimeValueOrder(b, a);
  }

  /** `a.getTime() === b.getTime()`: never true when either side is NaN. */
  predicate SameTime(a: Date, b: Date)
  {
    a.Valid? && b.Valid? && TimeValue(a.at) == TimeValue(b.at)
  }

  /** `a <= b` on dates, which compares time values; false when either side is NaN. */
  predicate NotAfter(a: Date, b: Date)
  {
    a.Valid? && b.Valid? && TimeValue(a.at) <= TimeValue(b.at)
  }

  /** `getDay()`: 0 for Sunday through 6 for Saturday. */
  function Weekday(day: int): (w: int)
    ensures 0 <= w < 7
  {
    (day + 4) % 7
  }

  // ---------------------------------------------------------------------
  // The Gregorian calendar

  /** A calendar date with a zero-based month, as `getFullYear()`,
      `getMonth()` and `getDate()` report it. */
  datatype CivilDate = CivilDate(year: int, month: int, date: int)

  predicate IsLeap(year: int)
  {
    year % 4 == 0 && (year % 100 != 0 || year % 400 == 0)
  }

  /** The length of a month, with month 1 for February. */
  function DaysInMonth(year: int, month: int): int
  {
    if month == 1 then (if IsLeap(year) then 29 else 28)
    else if month == 3 || month == 5 || month == 8 || month == 10 then 30
    else 31
  }

  /** A date that exists in the calendar. */
  predicate ValidCivil(c: CivilDate)
  {
    0 <= c.month < 12 && 1 <= c.date <= DaysInMonth(c.year, c.month)
  }

  // Internally years begin on March 1, so that the leap day closes the
  // year. Months are then counted from March (`mp`, 0 for March through 11
  // for February), and years are grouped in 400-year eras of 146097 days,
  // era 0 beginning on 0000-03-01, which is day -719468.

  /** Days from March 1 to the first of the `mp`-th month after it. */
  function DaysBeforeMonth(mp: int): int
  {
    (153 * mp + 2) / 5
  }

  /** The calendar month of a March-based month index. */
  function MonthOf(mp: int): int
  {
    if mp < 10 then mp + 2 else mp - 10
  }

  /** The March-based index of a calendar month. */
  function MarchMonth(month: int): int
  {
    if month > 1 then month - 2 else month + 10
  }

  /** The year, counted from March, that a calendar date lies in. */
  function MarchYear(c: CivilDate): int
  {
    c.year - (if c.month <= 1 then 1 else 0)
  }

  /** Every day of a March-based year lies in exactly one month. */
  lemma MonthOfDay(doy: int)
    requires 0 <= doy < 367
    ensures var mp := (5 * doy + 2) / 153;
      0 <= mp < 12 && DaysBeforeMonth(mp) <= doy < DaysBeforeMonth(mp + 1)
  {
  }

  lemma DayOfMonthIndex(mp: int, doy: int)
    requires 0 <= mp < 12 && DaysBeforeMonth(mp) <= doy < DaysBeforeMonth(mp + 1)
    ensures (5 * doy + 2) / 153 == mp
  {
  }

  /** Consecutive month starts lie a month's length apart (February, the
      last month of the March-based year, has no successor inside it). */
  lemma MonthLengths(year: int, mp: int)
    requires 0 <= mp < 12
    ensures mp < 11 ==> DaysBeforeMonth(mp + 1) - DaysBeforeMonth(mp) == DaysInMonth(year, MonthOf(mp))
  {
  }

  /** Days from the start of an era to the start of its `yoe`-th year. */
  function DaysBeforeYear(yoe: int): int
  {
    365 * yoe + yoe / 4 - yoe / 100
  }

  /** Days from 0000-03-01 to March 1 of year `y`. */
  function YearStart(y: int): int
  {
    var era := y / 400;
    146097 * era + DaysBeforeYear(y - 400 * era)
  }

  lemma DaysBeforeYearSplit(century: int, quad: int, yoq: int)
    requires 0 <= century < 4 && 0 <= quad < 25 && 0 <= yoq < 4
    ensures DaysBeforeYear(100 * century + 4 * quad + yoq) == 36524 * century + 1461 * quad + 365 * yoq
  {
    var yoe := 100 * century + 4 * quad + yoq;
    assert yoe / 4 == 25 * century + quad;
    assert yoe / 100 == century;
  }

  /** The length of the `yoe`-th year of an era, which holds a leap day
      when the calendar year it ends in is a leap year. */
  function YearLength(era: int, yoe: int): int
  {
    if IsLeap(400 * era + yoe + 1) then 366 else 365
  }

  /** Which year of its era a March-based year ending in a leap year is. */
  lemma LeapYearOf(era: int, century: int, quad: int, yoq: int)
    requires 0 <= century < 4 && 0 <= quad < 25 && 0 <= yoq < 4
    ensures IsLeap(400 * era + 100 * century + 4 * quad + yoq + 1) <==> yoq == 3 && (quad < 24 || century == 3)
  {
    var y := 400 * era + 100 * century + 4 * quad + yoq + 1;
    assert y % 4 == (yoq + 1) % 4 by {
      assert y == 4 * (100 * era + 25 * century + quad) + yoq + 1;
    }
    if yoq == 3 {
      assert y == 4 * (100 * era + 25 * century + quad + 1);
      if quad == 24 {
        assert y == 100 * (4 * era + century + 1);
        assert y % 400 == 0 <==> century == 3 by {
          assert y == 400 * era + 100 * (century + 1);
        }
      } else {
        assert y == 100 * (4 * era + century) + 4 * (quad + 1);
      }
    }
  }

  lemma LeapDay(era: int, century: int, quad: int, yoq: int, doy: int)
    requires 0 <= century < 4 && 0 <= quad < 25 && 0 <= yoq < 4 && 0 <= doy <= 365
    requires doy == 365 ==> yoq == 3 && (quad < 24 || century == 3)
    ensures doy < YearLength(era, 100 * century + 4 * quad + yoq)
  {
    LeapYearOf(era, century, quad, yoq);
  }

  /** A day's era, year of the era, and day of that March-based year. */
  datatype EraDay = EraDay(era: int, yoe: int, doy: int)

  /** Splits a day number into its era, year of era and day of year, by
      peeling off 400-year eras, centuries, four-year spans and years. */
  function Split(day: int): EraDay
  {
    var z := day + 719468;
    var era := z / 146097;
    var doe := z - era * 146097;
    var century := if doe / 36524 < 3 then doe / 36524 else 3;
    var doc := doe - 36524 * century;
    var quad := doc / 1461;
    var doq := doc - 1461 * quad;
    var yoq := if doq / 365 < 3 then doq / 365 else 3;
    EraDay(era, 100 * century + 4 * quad + yoq, doq - 365 * yoq)
  }

  /** The century of an era's day: the fourth century holds one day
      more than the others. */
  lemma CenturyBounds(doe: int)
    requires 0 <= doe < 146097
    ensures var century := if doe / 36524 < 3 then doe / 36524 else 3;
      && 0 <= century < 4
      && 0 <= doe - 36524 * century < (if century == 3 then 36525 else 36524)
  {
  }

  /** The four-year span of a century's day: only the fourth century's
      last span holds a leap day. */
  lemma QuadBounds(doc: int, last: bool)
    requires 0 <= doc < (if last then 36525 else 36524)
    ensures 0 <= doc / 1461 < 25
    ensures doc / 1461 == 24 && !last ==> doc - 1461 * 24 < 1460
  {
  }

  /** The year of a four-year span's day: the fourth year holds one day
      more than the others. */
  lemma YearOfQuadBounds(doq: int)
    requires 0 <= doq < 1461
    ensures var yoq := if doq / 365 < 3 then doq / 365 else 3;
      && 0 <= yoq < 4
      && 0 <= doq - 365 * yoq <= 365
      && (doq - 365 * yoq == 365 ==> yoq == 3 && doq == 1460)
  {
  }

  /** The year of the era and the day of the year lie in range, and
      together with the era they make up the day. */
  lemma SplitBounds(day: int)
    ensures var s := Split(day);
      && 0 <= s.yoe < 400 && 0 <= s.doy < YearLength(s.era, s.yoe)
      && day + 719468 == 146097 * s.era + DaysBeforeYear(s.yoe) + s.doy
  {
    var z := day + 719468;
    var era := z / 146097;
    var doe := z - era * 146097;
    CenturyBounds(doe);
    var century := if doe / 36524 < 3 then doe / 36524 else 3;
    var doc := doe - 36524 * century;
    QuadBounds(doc, century == 3);
    var quad := doc / 1461;
    var doq := doc - 1461 * quad;
    YearOfQuadBounds(doq);
    var yoq := if doq / 365 < 3 then doq / 365 else 3;
    var doy := doq - 365 * yoq;
    DaysBeforeYearSplit(century, quad, yoq);
    LeapDay(era, century, quad, yoq, doy);
    assert day == 146097 * era + 36524 * century + 1461 * quad + 365 * yoq + doy - 719468;
    SplitOf(day, era, century, quad, yoq, doy);
  }

  /** Each step of the split divides by a period length and keeps the
      remainder; these lemmas recover the quotient of one step each. */
  lemma EraOf(z: int, era: int, doe: int)
    requires z == 146097 * era + doe && 0 <= doe < 146097
    ensures z / 146097 == era
  {
  }

  lemma CenturyOf(doe: int, century: int, doc: int)
    requires doe == 36524 * century + doc
    requires 0 <= century < 4 && 0 <= doc < (if century == 3 then 36525 else 36524)
    ensures (if doe / 36524 < 3 then doe / 36524 else 3) == century
  {
  }

  lemma QuadOf(doc: int, quad: int, doq: int)
    requires doc == 1461 * quad + doq && 0 <= doq < 1461
    ensures doc / 1461 == quad
  {
  }

  lemma YearOfQuad(doq: int, yoq: int, doy: int)
    requires doq == 365 * yoq + doy
    requires 0 <= yoq < 4 && 0 <= doy < (if yoq == 3 then 366 else 365)
    ensures (if doq / 365 < 3 then doq / 365 else 3) == yoq
  {
  }

  /** Splitting recovers the era, century, span, year and day a day number
      was built from. */
  lemma SplitOf(day: int, era: int, century: int, quad: int, yoq: int, doy: int)
    requires 0 <= century < 4 && 0 <= quad < 25 && 0 <= yoq < 4
    requires 0 <= doy < YearLength(era, 100 * century + 4 * quad + yoq)
    requires day == 146097 * era + 36524 * century + 1461 * quad + 365 * yoq + doy - 719468
    ensures Split(day) == EraDay(era, 100 * century + 4 * quad + yoq, doy)
  {
    LeapYearOf(era, century, quad, yoq);
    var doq := 365 * yoq + doy;
    var doc := 1461 * quad + doq;
    var doe := 36524 * century + doc;
    var z := day + 719468;
    EraOf(z, era, doe);
    assert z - era * 146097 == doe;
    CenturyOf(doe, century, doc);
    assert doe - 36524 * century == doc;
    QuadOf(doc, quad, doq);
    assert doc - 1461 * quad == doq;
    YearOfQuad(doq, yoq, doy);
  }

  lemma SplitYearStart(era: int, yoe: int, doy: int)
    requires 0 <= yoe < 400 && 0 <= doy < YearLength(era, yoe)
    ensures Split(146097 * era + DaysBeforeYear(yoe) + doy - 719468) == EraDay(era, yoe, doy)
  {
    var century := yoe / 100;
    var quad := (yoe % 100) / 4;
    var yoq := yoe % 4;
    assert yoe == 100 * century + 4 * quad + yoq;
    DaysBeforeYearSplit(century, quad, yoq);
    SplitOf(146097 * era + DaysBeforeYear(yoe) + doy - 719468, era, century, quad, yoq, doy);
  }

  /** The calendar date of a day of an era's year: month and date from
      the day of the year; January and February belong to the next year. */
  function CivilOfSplit(s: EraDay): CivilDate
  {
    var mp := (5 * s.doy + 2) / 153;
    var month := MonthOf(mp);
    CivilDate(400 * s.era + s.yoe + (if month <= 1 then 1 else 0), month, s.doy - DaysBeforeMonth(mp) + 1)
  }

  /** The calendar date of a day number. */
  function Civil(day: int): CivilDate
  {
    CivilOfSplit(Split(day))
  }

  lemma CivilOfSplitValid(s: EraDay)
    requires 0 <= s.yoe < 400 && 0 <= s.doy < YearLength(s.era, s.yoe)
    ensures ValidCivil(CivilOfSplit(s))
  {
    MonthOfDay(s.doy);
    MonthLengths(CivilOfSplit(s).year, (5 * s.doy + 2) / 153);
  }

  /** Every day falls on a date of the calendar. */
  lemma CivilValid(day: int)
    ensures ValidCivil(Civil(day))
  {
    SplitBounds(day);
    CivilOfSplitValid(Split(day));
  }

  lemma MonthRange(day: int)
    ensures 0 <= Month(day) < 12
  {
    CivilValid(day);
  }

  /** The start of the `yoe`-th year of an era. */
  lemma YearStartOf(era: int, yoe: int)
    requires 0 <= yoe < 400
    ensures YearStart(400 * era + yoe) == 146097 * era + DaysBeforeYear(yoe)
  {
    assert (400 * era + yoe) / 400 == era;
  }

  lemma CivilOfSplitNumber(s: EraDay)
    requires 0 <= s.yoe < 400 && 0 <= s.doy < 366
    ensures DayNumber(CivilOfSplit(s)) == 146097 * s.era + DaysBeforeYear(s.yoe) + s.doy - 719468
  {
    MonthOfDay(s.doy);
    var c := CivilOfSplit(s);
    assert MarchYear(c) == 400 * s.era + s.yoe;
    assert DaysBeforeMonth(MarchMonth(c.month)) + c.date - 1 == s.doy;
    YearStartOf(s.era, s.yoe);
  }

  /** The day number of a calendar date, counted from the first of its
      month; a date past the month's end runs on into the next months. */
  function DayNumber(c: CivilDate): int
  {
    YearStart(MarchYear(c)) + DaysBeforeMonth(MarchMonth(c.month)) + c.date - 1 - 719468
  }

  /** Numbering the calendar date of a day gives back the day. */
  lemma CivilRoundTrip(day: int)
    ensures DayNumber(Civil(day)) == day
  {
    SplitBounds(day);
    LeapDayBound(Split(day));
    CivilOfSplitNumber(Split(day));
  }

  lemma LeapDayBound(s: EraDay)
    requires s.doy < YearLength(s.era, s.yoe)
    ensures s.doy < 366
  {
  }

  /** The March-based day of the year of a valid date lies in its month
      and before the end of its year. */
  lemma DayOfYearBound(c: CivilDate, era: int, yoe: int)
    requires ValidCivil(c)
    requires MarchYear(c) == 400 * era + yoe
    ensures var mp := MarchMonth(c.month);
      && 0 <= mp < 12
      && DaysBeforeMonth(mp) <= DaysBeforeMonth(mp) + c.date - 1 < DaysBeforeMonth(mp + 1)
      && DaysBeforeMonth(mp) + c.date - 1 < YearLength(era, yoe)
  {
    var mp := MarchMonth(c.month);
    MonthLengths(c.year, mp);
    if mp == 11 {
      assert c.year == 400 * era + yoe + 1;
    }
  }

  /** Every date of the calendar has a day number, and that day's calendar
      date is the date itself. */
  lemma CivilOfDayNumber(c: CivilDate)
    requires ValidCivil(c)
    ensures Civil(DayNumber(c)) == c
  {
    var y := MarchYear(c);
    var era := y / 400;
    var yoe := y - 400 * era;
    var mp := MarchMonth(c.month);
    var doy := DaysBeforeMonth(mp) + c.date - 1;
    DayOfYearBound(c, era, yoe);
    assert DayNumber(c) == 146097 * era + DaysBeforeYear(yoe) + doy - 719468;
    SplitYearStart(era, yoe, doy);
    DayOfMonthIndex(mp, doy);
    SplitOfCivil(c, era, yoe);
  }

  lemma SplitOfCivil(c: CivilDate, era: int, yoe: int)
    requires ValidCivil(c) && MarchYear(c) == 400 * era + yoe
    requires var mp := MarchMonth(c.month);
      (5 * (DaysBeforeMonth(mp) + c.date - 1) + 2) / 153 == mp
    ensures CivilOfSplit(EraDay(era, yoe, DaysBeforeMonth(MarchMonth(c.month)) + c.date - 1)) == c
  {
    assert MonthOf(MarchMonth(c.month)) == c.month;
  }

  /** A year is 366 days long when it ends in a leap February, else 365. */
  lemma YearStep(y: int)
    ensures YearStart(y + 1) == YearStart(y) + (if IsLeap(y + 1) then 366 else 365)
  {
    var era := y / 400;
    var yoe := y - 400 * era;
    var century := yoe / 100;
    var quad := (yoe % 100) / 4;
    var yoq := yoe % 4;
    assert yoe == 100 * century + 4 * quad + yoq;
    LeapYearOf(era, century, quad, yoq);
    assert y + 1 == 400 * era + 100 * century + 4 * quad + yoq + 1;
    YearStartOf(era, yoe);
    if yoe < 399 {
      YearStartOf(era, yoe + 1);
      YearStepInEra(century, quad, yoq);
    } else {
      YearStartOf(era + 1, 0);
    }
  }

  /** Within an era, a year adds a leap day exactly at the end of a
      four-year span that is not a century's last, or of the era's. */
  lemma YearStepInEra(century: int, quad: int, yoq: int)
    requires 0 <= century < 4 && 0 <= quad < 25 && 0 <= yoq < 4
    requires 100 * century + 4 * quad + yoq < 399
    ensures DaysBeforeYear(100 * century + 4 * quad + yoq + 1)
      == DaysBeforeYear(100 * century + 4 * quad + yoq) + 365 +
         (if yoq == 3 && (quad < 24 || century == 3) then 1 else 0)
  {
    DaysBeforeYearSplit(century, quad, yoq);
    if yoq < 3 {
      DaysBeforeYearSplit(century, quad, yoq + 1);
    } else if quad < 24 {
      DaysBeforeYearSplit(century, quad + 1, 0);
    } else {
      DaysBeforeYearSplit(century + 1, 0, 0);
    }
  }

  /** The calendar date that follows a valid one: the next day of the
      month, else the first of the next month, else New Year's Day. */
  function Successor(c: CivilDate): CivilDate
  {
    if c.date < DaysInMonth(c.year, c.month) then CivilDate(c.year, c.month, c.date + 1)
    else if c.month < 11 then CivilDate(c.year, c.month + 1, 1)
    else CivilDate(c.year + 1, 0, 1)
  }

  /** Day numbers count the dates of the calendar one after another. */
  lemma DayNumberNext(c: CivilDate)
    requires ValidCivil(c)
    ensures ValidCivil(Successor(c))
    ensures DayNumber(Successor(c)) == DayNumber(c) + 1
  {
    if c.date < DaysInMonth(c.year, c.month) {
      NextInMonth(c);
    } else if c.month == 1 {
      NextMarch(c);
    } else if c.month < 11 {
      NextMonth(c);
    } else {
      NextYear(c);
    }
  }

  lemma NextInMonth(c: CivilDate)
    requires ValidCivil(c) && c.date < DaysInMonth(c.year, c.month)
    ensures DayNumber(CivilDate(c.year, c.month, c.date + 1)) == DayNumber(c) + 1
  {
  }

  /** Into March: the March-based year ends, so its length decides. */
  lemma NextMarch(c: CivilDate)
    requires ValidCivil(c) && c.month == 1 && c.date == DaysInMonth(c.year, 1)
    ensures DayNumber(CivilDate(c.year, 2, 1)) == DayNumber(c) + 1
  {
    MonthLengths(c.year, 11);
    YearStep(c.year - 1);
  }

  lemma NextMonth(c: CivilDate)
    requires ValidCivil(c) && c.month != 1 && c.month < 11 && c.date == DaysInMonth(c.year, c.month)
    ensures DayNumber(CivilDate(c.year, c.month + 1, 1)) == DayNumber(c) + 1
  {
    MonthLengths(c.year, MarchMonth(c.month));
  }

  /** Into January: the March-based year runs on. */
  lemma NextYear(c: CivilDate)
    requires ValidCivil(c) && c.month == 11 && c.date == 31
    ensures DayNumber(CivilDate(c.year + 1, 0, 1)) == DayNumber(c) + 1
  {
    MonthLengths(c.year, 9);
  }

  /** The day after a day falls on the calendar date after its date. With
      `Civil(0) == CivilDate(1970, 0, 1)` this fixes `Civil` on every day
      as the proleptic Gregorian calendar. */
  lemma CivilNext(day: int)
    ensures Civil(day + 1) == Successor(Civil(day))
  {
    CivilValid(day);
    CivilRoundTrip(day);
    SuccessorDay(Civil(day), day);
  }

  lemma SuccessorDay(c: CivilDate, day: int)
    requires ValidCivil(c) && DayNumber(c) == day
    ensures Civil(day + 1) == Successor(c)
  {
    DayNumberNext(c);
    CivilOfDayNumber(Successor(c));
  }

  /** `getFullYear()`, `getMonth()` and `getDate()` of a date lying on `day`. */
  function FullYear(day: int): int { Civil(day).year }

  function Month(day: int): int { Civil(day).month }

  function DayOfMonth(day: int): int { Civil(day).date }

  // ---------------------------------------------------------------------
  // Building dates from fields

  /** The day of ECMAScript's MakeDay(year, month, date): month overflow
      carries into the year, and `date` counts from the first of the month,
      running on into later months or back into earlier ones. */
  function MakeDay(year: int, month: int, date: int): int
  {
    DayNumber(CivilDate(year + month / 12, month % 12, 1)) + date - 1
  }

  /** Within a year, MakeDay is the day number of the date, whether or
      not `date` lies inside the month. */
  lemma MakeDayInYear(year: int, month: int, date: int)
    requires 0 <= month < 12
    ensures MakeDay(year, month, date) == DayNumber(CivilDate(year, month, date))
  {
    assert month / 12 == 0 && month % 12 == month;
    var first := CivilDate(year, month, 1);
    assert DayNumber(CivilDate(year, month, date)) == DayNumber(first) + date - 1;
  }

  /** On a date of the calendar, MakeDay lands on that very date. */
  lemma MakeDayCivil(year: int, month: int, date: int)
    requires ValidCivil(CivilDate(year, month, date))
    ensures Civil(MakeDay(year, month, date)) == CivilDate(year, month, date)
  {
    MakeDayInYear(year, month, date);
    CivilOfDayNumber(CivilDate(year, month, date));
  }

  /** `getFullYear()` lies in 0..99, where `new Date(y, m, d)` reads the
      year as 1900 + y. */
  predicate TwoDigitYear(day: int)
  {
    0 <= FullYear(day) <= 99
  }

  /** The day of `new Date(y, m, d)`: years 0 to 99 stand for 1900 to 1999,
      as the `Date` constructor of the ECMAScript specification reads them. */
  function NewDateDay(year: int, month: int, date: int): int
  {
    MakeDay(if 0 <= year <= 99 then 1900 + year else year, month, date)
  }

  /** The day of `new Date(d.getFullYear(), d.getMonth(), d.getDate())` for
      a date `d` lying on `day`: the same day, except in years 0 to 99 (see
      `CalendarDayTwoDigit`). */
  function CalendarDay(day: int): int
  {
    NewDateDay(FullYear(day), Month(day), DayOfMonth(day))
  }

  /** Outside years 0 to 99, rebuilding a date from its fields gives back
      its own day. */
  lemma CalendarDayKeeps(day: int)
    requires !TwoDigitYear(day)
    ensures CalendarDay(day) == day
  {
    var c := Civil(day);
    CivilValid(day);
    CivilRoundTrip(day);
    MakeDayInYear(c.year, c.month, c.date);
    assert NewDateDay(c.year, c.month, c.date) == MakeDay(c.year, c.month, c.date);
  }

  /** In years 0 to 99 the rebuilt day carries the same month and day of
      the month 1900 years later, where that date exists. */
  lemma CalendarDayTwoDigit(day: int)
    requires TwoDigitYear(day)
    ensures var moved := CivilDate(FullYear(day) + 1900, Month(day), DayOfMonth(day));
      && (ValidCivil(moved) ==> Civil(CalendarDay(day)) == moved)
      && (!ValidCivil(moved) ==> Civil(day) == CivilDate(0, 1, 29) && Civil(CalendarDay(day)) == CivilDate(1900, 2, 1))
  {
    if ValidCivil(CivilDate(FullYear(day) + 1900, Month(day), DayOfMonth(day))) {
      TwoDigitMoved(day);
    } else {
      TwoDigitLeapDay(day);
    }
  }

  lemma TwoDigitMoved(day: int)
    requires TwoDigitYear(day)
    requires ValidCivil(CivilDate(FullYear(day) + 1900, Month(day), DayOfMonth(day)))
    ensures Civil(CalendarDay(day)) == CivilDate(FullYear(day) + 1900, Month(day), DayOfMonth(day))
  {
    MonthRange(day);
    ShiftedCivil(Civil(day));
  }

  lemma ShiftedCivil(c: CivilDate)
    requires 0 <= c.month < 12 && 0 <= c.year <= 99
    requires ValidCivil(CivilDate(c.year + 1900, c.month, c.date))
    ensures Civil(NewDateDay(c.year, c.month, c.date)) == CivilDate(c.year + 1900, c.month, c.date)
  {
    NewDateShifted(c);
    CivilOfDayNumber(CivilDate(c.year + 1900, c.month, c.date));
  }

  lemma TwoDigitLeapDay(day: int)
    requires TwoDigitYear(day)
    requires !ValidCivil(CivilDate(FullYear(day) + 1900, Month(day), DayOfMonth(day)))
    ensures Civil(day) == CivilDate(0, 1, 29) && Civil(CalendarDay(day)) == CivilDate(1900, 2, 1)
  {
    CivilValid(day);
    LeapDayOfYearZero(Civil(day));
    NewDateShifted(Civil(day));
    March1900();
  }

  lemma NewDateShifted(c: CivilDate)
    requires 0 <= c.month < 12 && 0 <= c.year <= 99
    ensures NewDateDay(c.year, c.month, c.date) == DayNumber(CivilDate(c.year + 1900, c.month, c.date))
  {
    MakeDayInYear(c.year + 1900, c.month, c.date);
  }

  lemma NewDateUnshifted(c: CivilDate)
    requires 0 <= c.month < 12 && !(0 <= c.year <= 99)
    ensures NewDateDay(c.year, c.month, c.date) == DayNumber(c)
  {
    MakeDayInYear(c.year, c.month, c.date);
  }

  /** 0000-02-29 is the one date of years 0 to 99 missing 1900 years later. */
  lemma LeapDayOfYearZero(c: CivilDate)
    requires ValidCivil(c) && 0 <= c.year <= 99
    requires !ValidCivil(CivilDate(c.year + 1900, c.month, c.date))
    ensures c == CivilDate(0, 1, 29)
  {
    assert c.month == 1 && c.date == 29 && IsLeap(c.year) && !IsLeap(c.year + 1900);
    assert (c.year + 1900) % 4 == c.year % 4;
    assert (c.year + 1900) % 100 == 0;
  }

  /** MakeDay carries 1900-02-29, which does not exist, over to 1900-03-01. */
  lemma March1900()
    ensures DayNumber(CivilDate(1900, 1, 29)) == DayNumber(CivilDate(1900, 2, 1))
    ensures Civil(DayNumber(CivilDate(1900, 1, 29))) == CivilDate(1900, 2, 1)
  {
    DayNumberNext(CivilDate(1900, 1, 28));
    assert DayNumber(CivilDate(1900, 1, 29)) == DayNumber(CivilDate(1900, 1, 28)) + 1;
    CivilOfDayNumber(CivilDate(1900, 2, 1));
  }

  /** Each year adds at least 365 days. */
  lemma {:induction false} YearStartGrows(y: int, k: nat)
    ensures YearStart(y + k) >= YearStart(y) + 365 * k
  {
    if k > 0 {
      YearStartGrows(y, k - 1);
      YearStep(y + k - 1);
    }
  }

  /** Rebuilding a date of years 0 to 99 moves it at least 1900 times 365
      days later. */
  lemma TwoDigitYearMoves(day: int)
    requires TwoDigitYear(day)
    ensures day + 365 * 1900 <= CalendarDay(day)
  {
    CivilValid(day);
    CivilRoundTrip(day);
    RebuiltDateMoves(Civil(day));
  }

  lemma RebuiltDateMoves(c: CivilDate)
    requires ValidCivil(c) && 0 <= c.year <= 99
    ensures DayNumber(c) + 365 * 1900 <= NewDateDay(c.year, c.month, c.date)
  {
    NewDateShifted(c);
    YearStartGrows(MarchYear(c), 1900);
  }

  /** `new Date(d.getFullYear(), d.getMonth(), d.getDate())`: midnight of the
      rebuilt calendar day, or an invalid date when `d` is invalid. */
  function StartOfDay(d: Date): Date
  {
    match d
    case Valid(m) => Valid(Moment(CalendarDay(m.day), 0))
    case Invalid => Invalid
  }

  /** What `new Date(d.getFullYear(), d.getMonth(), d.getDate())` yields:
      an invalid date stays invalid; a valid one becomes a midnight, of its
      own day outside years 0 to 99 and of a day 1900 years later inside. */
  lemma StartOfDayMidnight(d: Date)
    ensures d.Invalid? ==> StartOfDay(d) == Invalid
    ensures d.Valid? ==> StartOfDay(d).Valid? && StartOfDay(d).at.ms == 0
    ensures d.Valid? && !TwoDigitYear(d.at.day) ==> StartOfDay(d) == Valid(Moment(d.at.day, 0))
    ensures d.Valid? && TwoDigitYear(d.at.day) ==>
      FullYear(StartOfDay(d).at.day) == FullYear(d.at.day) + 1900
  {
    if d.Valid? {
      if TwoDigitYear(d.at.day) {
        CalendarDayTwoDigit(d.at.day);
      } else {
        CalendarDayKeeps(d.at.day);
      }
    }
  }

  /** `setDate(n)` on a date lying on `day`: ECMAScript's
      MakeDay(getFullYear(), getMonth(), n), with no remapping of the year. */
  function SetDate(day: int, n: int): int
  {
    MakeDay(FullYear(day), Month(day), n)
  }

  /** `setDate(getDate() + k)` moves a date by exactly `k` days, whatever
      month or year boundaries lie in between. */
  lemma SetDateMoves(day: int, k: int)
    ensures SetDate(day, DayOfMonth(day) + k) == day + k
  {
    MonthRange(day);
    CivilRoundTrip(day);
    MakeDayShift(Civil(day), k);
  }

  /** MakeDay on the fields of a date, moved by `k` days of the month, is
      `k` days after the date. */
  lemma MakeDayShift(c: CivilDate, k: int)
    requires 0 <= c.month < 12
    ensures MakeDay(c.year, c.month, c.date + k) == DayNumber(c) + k
  {
    MakeDayInYear(c.year, c.month, c.date + k);
    assert DayNumber(CivilDate(c.year, c.month, c.date + k)) == DayNumber(c) + k;
  }

  /** `setDate(n)` with a day of the same month keeps year and month and
      sets the day of the month to `n`. */
  lemma SetDateInMonth(day: int, n: int)
    requires 1 <= n <= DaysInMonth(FullYear(day), Month(day))
    ensures Civil(SetDate(day, n)) == CivilDate(FullYear(day), Month(day), n)
  {
    MakeDayCivil(FullYear(day), Month(day), n);
  }

  /** The first day of the month and year of `day`. */
  function MonthStart(day: int): int
  {
    DayNumber(CivilDate(FullYear(day), Month(day), 1))
  }

  /** Two days share month and year exactly when the first lies in the
      month of the second: from its first day, for as many days as that
      month has. */
  lemma SameMonthIff(d: int, n: int)
    ensures Month(d) == Month(n) && FullYear(d) == FullYear(n) <==>
      MonthStart(n) <= d < MonthStart(n) + DaysInMonth(FullYear(n), Month(n))
  {
    if Month(d) == Month(n) && FullYear(d) == FullYear(n) {
      InOwnMonth(d);
    }
    if MonthStart(n) <= d < MonthStart(n) + DaysInMonth(FullYear(n), Month(n)) {
      MonthRange(n);
      DayOfMonthDay(CivilDate(FullYear(n), Month(n), d - MonthStart(n) + 1), d);
    }
  }

  /** A day lies in its own month. */
  lemma InOwnMonth(d: int)
    ensures MonthStart(d) <= d < MonthStart(d) + DaysInMonth(FullYear(d), Month(d))
  {
    CivilValid(d);
    CivilRoundTrip(d);
    DateFromFirst(Civil(d));
  }

  /** A date's number counts on from the first of its month. */
  lemma DateFromFirst(c: CivilDate)
    ensures DayNumber(c) == DayNumber(CivilDate(c.year, c.month, 1)) + c.date - 1
  {
  }

  /** The day numbered by a date of the calendar lies on that date. */
  lemma DayOfMonthDay(c: CivilDate, d: int)
    requires ValidCivil(c) && d == DayNumber(CivilDate(c.year, c.month, 1)) + c.date - 1
    ensures Civil(d) == c
  {
    DateFromFirst(c);
    CivilOfDayNumber(c);
  }
}
