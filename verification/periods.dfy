/** The derived view of the task board: which tasks a period shows, and
    under which title. A pure function of the full list, the period string
    and the current moment. */
module Periods {
  import opened Calendar
  import opened Seqs
  import opened Tasks

  /** How `filterTasks` reads a period string: the empty string is falsy,
      three strings select a range, and anything else falls through to
      the `default` branch of the switch. */
  datatype Period = NoPeriod | ThisDay | ThisWeek | ThisMonth | Unrecognised

  function Classify(period: string): (p: Period)
    ensures p == NoPeriod <==> period == ""
    ensures p == ThisDay <==> period == "today"
    ensures p == ThisWeek <==> period == "week"
    ensures p == ThisMonth <==> period == "month"
  {
    if period == "" then NoPeriod
    else if period == "today" then ThisDay
    else if period == "week" then ThisWeek
    else if period == "month" then ThisMonth
    else Unrecognised
  }

  function Title(p: Period): string
  {
    match p
    case NoPeriod => "My Tasks"
    case ThisDay => "Today's Tasks"
    case ThisWeek => "This Week's Tasks"
    case ThisMonth => "This Month's Tasks"
    case Unrecognised => "All Tasks"
  }

  /** `today`: `new Date(now.getFullYear(), now.getMonth(), now.getDate())`,
      the midnight of the current day (moved 1900 years on when the clock
      reads a year from 0 to 99). */
  function Today(now: Moment): Moment
  {
    StartOfDay(Valid(now)).at
  }

  /** Midnight of the week's Sunday: `today` with `setDate(getDate() - getDay())`. */
  function WeekStart(now: Moment): Moment
  {
    SundayOf(Today(now))
  }

  /** Midnight of `setDate(getDate() - getDay())` applied to `today`. */
  function SundayOf(today: Moment): Moment
  {
    Moment(SetDate(today.day, DayOfMonth(today.day) - Weekday(today.day)), 0)
  }

  /** Midnight of the week's Saturday: `weekStart` with `setDate(getDate() + 6)`.
      A bound at midnight, not at the end of that day. */
  function WeekEnd(now: Moment): Moment
  {
    SixDaysOn(WeekStart(now))
  }

  /** Midnight of `setDate(getDate() + 6)` applied to `start`. */
  function SixDaysOn(start: Moment): Moment
  {
    Moment(SetDate(start.day, DayOfMonth(start.day) + 6), 0)
  }

  /** The rebuilt due date has the same time value as `today`. */
  predicate DueToday(now: Moment, t: Task)
  {
    SameTime(StartOfDay(t.dueDate), Valid(Today(now)))
  }

  /** `weekStart <= dueDate && dueDate <= weekEnd`, on full time values. */
  predicate DueThisWeek(now: Moment, t: Task)
  {
    NotAfter(Valid(WeekStart(now)), t.dueDate) && NotAfter(t.dueDate, Valid(WeekEnd(now)))
  }

  /** Same month and same full year as now; NaN fields never compare equal. */
  predicate DueThisMonth(now: Moment, t: Task)
  {
    t.dueDate.Valid? &&
    Month(t.dueDate.at.day) == Month(now.day) &&
    FullYear(t.dueDate.at.day) == FullYear(now.day)
  }

  /** The test a period applies to each task. */
  predicate Keep(p: Period, now: Moment, t: Task)
  {
    match p
    case ThisDay => DueToday(now, t)
    case ThisWeek => DueThisWeek(now, t)
    case ThisMonth => DueThisMonth(now, t)
    case _ => true
  }

  function KeepFn(p: Period, now: Moment): Task -> bool
  {
    (t: Task) => Keep(p, now, t)
  }

  /** The outcome of `filterTasks`: the view and the board's title. */
  datatype Filtered = Filtered(tasks: seq<Task>, title: string)

  /** `filterTasks(period)` evaluated at `now`. */
  function FilterTasks(all: seq<Task>, period: string, now: Moment): (r: Filtered)
    ensures SubseqOf(r.tasks, all)
    ensures forall t: Task :: t in r.tasks <==> t in all && Keep(Classify(period), now, t)
    ensures forall t: Task ::
      multiset(r.tasks)[t] == if Keep(Classify(period), now, t) then multiset(all)[t] else 0
    ensures period == "" ==> r == Filtered(all, "My Tasks")
    ensures period == "today" ==> r.title == "Today's Tasks"
    ensures period == "week" ==> r.title == "This Week's Tasks"
    ensures period == "month" ==> r.title == "This Month's Tasks"
    ensures period !in {"", "today", "week", "month"} ==> r == Filtered(all, "All Tasks")
  {
    var p := Classify(period);
    match p
    case NoPeriod | Unrecognised =>
      SubseqOfSelf(all);
      Filtered(all, Title(p))
    case _ =>
      FilterMultiset(all, KeepFn(p, now));
      FilterSubseq(all, KeepFn(p, now));
      Filtered(Filter(all, KeepFn(p, now)), Title(p))
  }

  /** The `today` test holds exactly for valid due dates whose rebuilt
      calendar day is today's; outside years 0 to 99 that is the current
      day, whatever the time of day. */
  lemma DueTodayIff(now: Moment, t: Task)
    ensures DueToday(now, t) <==> t.dueDate.Valid? && CalendarDay(t.dueDate.at.day) == CalendarDay(now.day)
    ensures !TwoDigitYear(now.day) && (t.dueDate.Valid? ==> !TwoDigitYear(t.dueDate.at.day)) ==>
      (DueToday(now, t) <==> t.dueDate.Valid? && t.dueDate.at.day == now.day)
  {
    if t.dueDate.Valid? {
      TimeValueInjective(StartOfDay(t.dueDate).at, Today(now));
      if !TwoDigitYear(now.day) && !TwoDigitYear(t.dueDate.at.day) {
        CalendarDayKeeps(now.day);
        CalendarDayKeeps(t.dueDate.at.day);
      }
    }
  }

  /** The week runs from the Sunday on or before today to the Saturday six
      days later, across month and year boundaries alike. */
  lemma WeekBounds(now: Moment)
    ensures var today := CalendarDay(now.day);
      && WeekStart(now) == Moment(today - Weekday(today), 0)
      && WeekEnd(now) == Moment(today - Weekday(today) + 6, 0)
      && Weekday(WeekStart(now).day) == 0
  {
    WeekStartDay(now);
    WeekEndDay(now);
    SundayBefore(CalendarDay(now.day), WeekStart(now).day);
  }

  lemma TodayDay(now: Moment)
    ensures Today(now) == Moment(CalendarDay(now.day), 0)
  {
  }

  lemma WeekStartDay(now: Moment)
    ensures WeekStart(now) == Moment(CalendarDay(now.day) - Weekday(CalendarDay(now.day)), 0)
  {
    TodayDay(now);
    SundayBack(Today(now));
  }

  lemma SundayBack(today: Moment)
    ensures SundayOf(today) == Moment(today.day - Weekday(today.day), 0)
  {
    SetDateMoves(today.day, -Weekday(today.day));
  }

  lemma WeekEndDay(now: Moment)
    ensures WeekEnd(now) == Moment(WeekStart(now).day + 6, 0)
  {
    SixDaysLater(WeekStart(now));
  }

  lemma SixDaysLater(start: Moment)
    ensures SixDaysOn(start) == Moment(start.day + 6, 0)
  {
    SetDateMoves(start.day, 6);
  }

  /** Going back by the weekday index lands on a Sunday. */
  lemma SundayBefore(day: int, sunday: int)
    requires sunday == day - Weekday(day)
    ensures Weekday(sunday) == 0
  {
    var w := (day + 4) % 7;
    assert day + 4 == (day + 4) / 7 * 7 + w;
    assert day - w + 4 == (day + 4) / 7 * 7;
  }

  /** The `week` test in day terms: a valid due date from the Sunday's
      midnight on, up to the Saturday's midnight and no later. */
  lemma DueThisWeekIff(now: Moment, t: Task)
    ensures DueThisWeek(now, t) <==>
      var sunday := CalendarDay(now.day) - Weekday(CalendarDay(now.day));
      && t.dueDate.Valid?
      && sunday <= t.dueDate.at.day
      && (t.dueDate.at.day < sunday + 6 || (t.dueDate.at.day == sunday + 6 && t.dueDate.at.ms == 0))
  {
    WeekBounds(now);
    if t.dueDate.Valid? {
      TimeValueOrder(WeekStart(now), t.dueDate.at);
      TimeValueOrder(t.dueDate.at, WeekEnd(now));
    }
  }

  /** The `month` test in day terms: a valid due date on a day of the
      current calendar month. */
  lemma DueThisMonthIff(now: Moment, t: Task)
    ensures DueThisMonth(now, t) <==>
      && t.dueDate.Valid?
      && MonthStart(now.day) <= t.dueDate.at.day < MonthStart(now.day) + DaysInMonth(FullYear(now.day), Month(now.day))
  {
    if t.dueDate.Valid? {
      SameMonthIff(t.dueDate.at.day, now.day);
    }
  }

  /** A task due today is in this week's view, except on a Saturday when it
      is due after midnight: the week ends at Saturday's midnight. A due
      date in years 0 to 99 matches `today` 1900 years later but lies
      outside that week. */
  lemma TodayInWeek(now: Moment, t: Task)
    requires DueToday(now, t)
    ensures TwoDigitYear(t.dueDate.at.day) ==> !DueThisWeek(now, t)
    ensures !TwoDigitYear(t.dueDate.at.day) ==>
      (DueThisWeek(now, t) <==> Weekday(t.dueDate.at.day) < 6 || t.dueDate.at.ms == 0)
  {
    DueTodayIff(now, t);
    DueThisWeekIff(now, t);
    var due := t.dueDate.at.day;
    if TwoDigitYear(due) {
      TwoDigitYearMoves(due);
    } else {
      CalendarDayKeeps(due);
    }
  }

  /** A task due today is in this month's view, unless the due date or the
      clock reads a year from 0 to 99: `month` compares the fields as they
      are, while `today` compares them after the 1900-year shift. */
  lemma TodayInMonth(now: Moment, t: Task)
    requires DueToday(now, t)
    requires !TwoDigitYear(now.day) && !TwoDigitYear(t.dueDate.at.day)
    ensures DueThisMonth(now, t)
  {
    DueTodayIff(now, t);
  }

  /** Whether a period shows a task depends on its due date alone. */
  lemma KeepDependsOnDueDate(p: Period, now: Moment, t: Task, u: Task)
    requires t.dueDate == u.dueDate
    ensures Keep(p, now, t) == Keep(p, now, u)
  {
  }

  /** Adding a task adds it at the end of the view when the period shows
      it, and leaves the view as it was otherwise. */
  lemma ViewAfterAppend(all: seq<Task>, period: string, now: Moment, task: Task)
    ensures FilterTasks(Append(all, task), period, now).tasks ==
      FilterTasks(all, period, now).tasks + (if Keep(Classify(period), now, task) then [task] else [])
  {
    var p := Classify(period);
    if !(p.NoPeriod? || p.Unrecognised?) {
      FilterAppend(all, [task], KeepFn(p, now));
      assert Filter([task], KeepFn(p, now)) == if Keep(p, now, task) then [task] else [];
    }
  }

  /** Toggling tasks never moves them in or out of the view: toggling the
      full list and filtering equals filtering and toggling the view. */
  lemma ViewAfterToggle(all: seq<Task>, period: string, now: Moment, id: string)
    ensures FilterTasks(Toggle(all, id), period, now).tasks == Toggle(FilterTasks(all, period, now).tasks, id)
  {
    var p := Classify(period);
    if !(p.NoPeriod? || p.Unrecognised?) {
      FilterMapCommute(all, KeepFn(p, now), FlipIfId(id));
    }
  }

  /** Deleting from the full list and filtering equals filtering and
      deleting from the view. */
  lemma ViewAfterDelete(all: seq<Task>, period: string, now: Moment, id: string)
    ensures FilterTasks(Delete(all, id), period, now).tasks == Delete(FilterTasks(all, period, now).tasks, id)
  {
    var p := Classify(period);
    if !(p.NoPeriod? || p.Unrecognised?) {
      FilterCommutes(all, OtherId(id), KeepFn(p, now));
    }
  }

  /** Every period shows nothing of an empty list. */
  lemma ViewOfEmpty(period: string, now: Moment)
    ensures FilterTasks([], period, now).tasks == []
  {
  }
}
