/** Concrete days, named by their calendar dates, and what the board shows
    on them: days of July 2025, and one date of the year 50 seen from 1950. */
module Scenarios {
  import opened Wrappers
  import opened Calendar
  import opened Seqs
  import opened Tasks
  import opened Periods
  import opened TaskBoard

  // Each scenario takes its moments and days as parameters pinned by their
  // calendar dates; the round trip of `Civil` and `DayNumber` makes each
  // parameter a single day.

  /** Distinct days have distinct calendar dates. */
  lemma CivilInjective(x: int, y: int)
    requires Civil(x) == Civil(y)
    ensures x == y
  {
    CivilRoundTrip(x);
    CivilRoundTrip(y);
  }

  lemma EpochDay()
    ensures DayNumber(CivilDate(1970, 0, 1)) == 0
  {
    assert YearStart(1969) == 719162;
  }

  lemma EpochCivil()
    ensures Civil(0) == CivilDate(1970, 0, 1)
  {
    EpochDay();
    CivilOfDayNumber(CivilDate(1970, 0, 1));
  }

  /** The day numbering is anchored at Thursday 1970-01-01. */
  lemma EpochIsThursday()
    ensures Civil(0) == CivilDate(1970, 0, 1) && Weekday(0) == 4
  {
    EpochCivil();
  }

  lemma July12Day()
    ensures DayNumber(CivilDate(2025, 6, 12)) == 20281
  {
    assert YearStart(2025) == 739616;
  }

  /** 2025-07-12 is day 20281. */
  lemma July12Number(day: int)
    requires Civil(day) == CivilDate(2025, 6, 12)
    ensures day == 20281
  {
    CivilRoundTrip(day);
    July12Day();
  }

  lemma Day20281Saturday(day: int)
    requires day == 20281
    ensures Weekday(day) == 6
  {
  }

  /** 2025-07-12 is a Saturday. */
  lemma July12(day: int)
    requires Civil(day) == CivilDate(2025, 6, 12)
    ensures Weekday(day) == 6
  {
    July12Number(day);
    Day20281Saturday(day);
  }

  /** A pending task due on `day` at `ms` past midnight. */
  function TaskDue(id: string, day: int, ms: TimeOfDay): Task
  {
    Task(id, "task " + id, false, Valid(Moment(day, ms)), Valid(Moment(20270, 0)))
  }

  /** The board's view after loading `all` under `param` is the
      filtered list. */
  lemma InitView(all: seq<Task>, param: string, now: Moment)
    ensures Init(Some(all), Some(param), now).view == Filter(all, KeepFn(Classify(param), now))
  {
    var p := Classify(param);
    if p.NoPeriod? || p.Unrecognised? {
      FilterAllKept(all, KeepFn(p, now));
    }
  }

  /** The view a period gives of a one-task list. */
  lemma ViewOfOne(t: Task, param: string, now: Moment)
    ensures Init(Some([t]), Some(param), now).view ==
      if Keep(Classify(param), now, t) then [t] else []
  {
    InitView([t], param, now);
    FilterOne(t, KeepFn(Classify(param), now));
  }

  /** The view a period gives of a two-task list. */
  lemma ViewOfTwo(a: Task, b: Task, param: string, now: Moment)
    ensures Init(Some([a, b]), Some(param), now).view ==
      (if Keep(Classify(param), now, a) then [a] else []) +
      (if Keep(Classify(param), now, b) then [b] else [])
  {
    InitView([a, b], param, now);
    FilterTwo(a, b, KeepFn(Classify(param), now));
  }

  /** In 2025, `today` keeps exactly the tasks due that day. */
  lemma KeptIffSameDay(now: Moment, t: Task)
    requires FullYear(now.day) == 2025 && t.dueDate.Valid? && FullYear(t.dueDate.at.day) == 2025
    ensures Keep(ThisDay, now, t) <==> t.dueDate.at.day == now.day
  {
    DueTodayIff(now, t);
  }

  /** In July 2025, `month` keeps the tasks due in July 2025. */
  lemma JulyKept(now: Moment, t: Task)
    requires Civil(now.day) == CivilDate(2025, 6, 10)
    requires t.dueDate.Valid? && Civil(t.dueDate.at.day).year == 2025 && Civil(t.dueDate.at.day).month == 6
    ensures Keep(ThisMonth, now, t)
  {
  }

  /** Two tasks due later in July both show under `month` on July 10. */
  lemma SameMonthKept(now: Moment, jul15: int, jul20: int)
    requires Civil(now.day) == CivilDate(2025, 6, 10)
    requires Civil(jul15) == CivilDate(2025, 6, 15) && Civil(jul20) == CivilDate(2025, 6, 20)
    ensures
      var all := [TaskDue("a", jul15, 0), TaskDue("b", jul20, 0)];
      var b := Init(Some(all), Some("month"), now);
      b.view == all && b.title == "This Month's Tasks"
  {
    var a := TaskDue("a", jul15, 0);
    var b := TaskDue("b", jul20, 0);
    JulyKept(now, a);
    JulyKept(now, b);
    ViewOfTwo(a, b, "month", now);
  }

  lemma July11Dropped(now: Moment, jul11: int)
    requires Civil(now.day) == CivilDate(2025, 6, 10) && Civil(jul11) == CivilDate(2025, 6, 11)
    ensures !Keep(ThisDay, now, TaskDue("b", jul11, 0))
  {
    KeptIffSameDay(now, TaskDue("b", jul11, 0));
  }

  lemma NineOClockKept(now: Moment)
    requires Civil(now.day) == CivilDate(2025, 6, 10)
    ensures Keep(ThisDay, now, TaskDue("a", now.day, 32_400_000))
  {
    KeptIffSameDay(now, TaskDue("a", now.day, 32_400_000));
  }

  /** Under `today` only the task due today shows, whatever its hour. */
  lemma TodayOnly(now: Moment, jul11: int)
    requires Civil(now.day) == CivilDate(2025, 6, 10) && Civil(jul11) == CivilDate(2025, 6, 11)
    ensures
      var all := [TaskDue("a", now.day, 32_400_000), TaskDue("b", jul11, 0)];
      var b := Init(Some(all), Some("today"), now);
      b.view == [all[0]] && b.title == "Today's Tasks"
  {
    NineOClockKept(now);
    July11Dropped(now, jul11);
    ViewOfTwo(TaskDue("a", now.day, 32_400_000), TaskDue("b", jul11, 0), "today", now);
  }

  /** Outside years 0 to 99, a task due later on a Saturday shows under
      `today` but not under `week`. */
  lemma SaturdayAfterMidnight(now: Moment, t: Task)
    requires Weekday(now.day) == 6 && !TwoDigitYear(now.day)
    requires t.dueDate.Valid? && t.dueDate.at.day == now.day && t.dueDate.at.ms > 0
    ensures Keep(ThisDay, now, t) && !Keep(ThisWeek, now, t)
  {
    SameDayDueToday(now, t);
    SaturdayOutsideWeek(now, t);
  }

  lemma SameDayDueToday(now: Moment, t: Task)
    requires !TwoDigitYear(now.day)
    requires t.dueDate.Valid? && t.dueDate.at.day == now.day
    ensures Keep(ThisDay, now, t)
  {
    DueTodayIff(now, t);
  }

  lemma SaturdayOutsideWeek(now: Moment, t: Task)
    requires t.dueDate.Valid? && Weekday(t.dueDate.at.day) == 6 && !TwoDigitYear(t.dueDate.at.day)
    requires DueToday(now, t) && t.dueDate.at.ms > 0
    ensures !DueThisWeek(now, t)
  {
    TodayInWeek(now, t);
  }

  /** On Saturday, July 12, a task due that evening shows under `today`
      but not under `week`, whose bound is that Saturday's midnight. */
  lemma SaturdayEveningOutsideWeek(now: Moment)
    requires Civil(now.day) == CivilDate(2025, 6, 12)
    ensures Weekday(now.day) == 6
    ensures
      var t := TaskDue("a", now.day, 64_800_000);
      Init(Some([t]), Some("today"), now).view == [t] &&
      Init(Some([t]), Some("week"), now).view == []
  {
    var t := TaskDue("a", now.day, 64_800_000);
    July12(now.day);
    SaturdayAfterMidnight(now, t);
    ViewOfOne(t, "today", now);
    ViewOfOne(t, "week", now);
  }

  lemma July31Successor()
    ensures Successor(CivilDate(2025, 6, 31)) == CivilDate(2025, 7, 1)
  {
  }

  /** August 1 follows July 31. */
  lemma August1Next(now: int, aug1: int)
    requires Civil(now) == CivilDate(2025, 6, 31) && Civil(aug1) == CivilDate(2025, 7, 1)
    ensures aug1 == now + 1
  {
    CivilNext(now);
    July31Successor();
    CivilInjective(aug1, now + 1);
  }

  lemma August1Dropped(now: Moment, aug1: int)
    requires Civil(now.day) == CivilDate(2025, 6, 31) && Civil(aug1) == CivilDate(2025, 7, 1)
    ensures !Keep(ThisMonth, now, TaskDue("a", aug1, 0))
  {
  }

  /** On July 31 the `month` view leaves out a task due the next day,
      August 1. */
  lemma NextMonthExcluded(now: Moment, aug1: int)
    requires Civil(now.day) == CivilDate(2025, 6, 31) && Civil(aug1) == CivilDate(2025, 7, 1)
    ensures aug1 == now.day + 1
    ensures Init(Some([TaskDue("a", aug1, 0)]), Some("month"), now).view == []
  {
    August1Next(now.day, aug1);
    August1Dropped(now, aug1);
    ViewOfOne(TaskDue("a", aug1, 0), "month", now);
  }

  /** On 1950-07-10, a task due 0050-07-10 shows under `today`, because its
      date is rebuilt in 1950, but not under `week`, which compares the due
      date as it is, nor under `month`, whose years differ. */
  lemma YearFiftyShownToday(now: Moment, due: int)
    requires Civil(now.day) == CivilDate(1950, 6, 10) && Civil(due) == CivilDate(50, 6, 10)
    ensures
      var t := TaskDue("a", due, 32_400_000);
      && Init(Some([t]), Some("today"), now).view == [t]
      && Init(Some([t]), Some("week"), now).view == []
      && Init(Some([t]), Some("month"), now).view == []
  {
    var t := TaskDue("a", due, 32_400_000);
    YearFiftyRebuilt(now, due);
    RebuiltShownToday(now, t);
    RebuiltOutsideWeek(now, t);
    OtherYearOutsideMonth(now, t);
    ViewOfOne(t, "today", now);
    ViewOfOne(t, "week", now);
    ViewOfOne(t, "month", now);
  }

  /** A due date that rebuilds to today's calendar day shows under `today`. */
  lemma RebuiltShownToday(now: Moment, t: Task)
    requires t.dueDate.Valid? && CalendarDay(t.dueDate.at.day) == CalendarDay(now.day)
    ensures Keep(ThisDay, now, t)
  {
    DueTodayIff(now, t);
  }

  /** A due date in years 0 to 99 that matches `today` is not in the week. */
  lemma RebuiltOutsideWeek(now: Moment, t: Task)
    requires t.dueDate.Valid? && TwoDigitYear(t.dueDate.at.day) && DueToday(now, t)
    ensures !Keep(ThisWeek, now, t)
  {
    TodayInWeek(now, t);
  }

  /** A due date in another year than the clock's is not in the month. */
  lemma OtherYearOutsideMonth(now: Moment, t: Task)
    requires t.dueDate.Valid? && FullYear(t.dueDate.at.day) != FullYear(now.day)
    ensures !Keep(ThisMonth, now, t)
  {
  }

  /** Both dates rebuild to 1950-07-10. */
  lemma YearFiftyRebuilt(now: Moment, due: int)
    requires Civil(now.day) == CivilDate(1950, 6, 10) && Civil(due) == CivilDate(50, 6, 10)
    ensures TwoDigitYear(due) && CalendarDay(due) == CalendarDay(now.day)
  {
    YearFiftyDue(due);
    CivilInjective(CalendarDay(due), now.day);
  }

  lemma YearFiftyDue(due: int)
    requires Civil(due) == CivilDate(50, 6, 10)
    ensures TwoDigitYear(due) && Civil(CalendarDay(due)) == CivilDate(1950, 6, 10)
  {
    CalendarDayTwoDigit(due);
  }

  /** Storage that is missing or does not parse leaves an empty board. */
  lemma UnreadableStorage(param: Option<string>, now: Moment)
    ensures Init(None, param, now).all == [] && Init(None, param, now).view == []
  {
  }
}
