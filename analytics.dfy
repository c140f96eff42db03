/** The month calendar and the monthly statistics panel of script.js: which cell
    of the grid shows which day, how each day is marked, and the goal the
    month's completions are measured against. */
module Analytics {
  import opened Calendar
  import opened Seqs
  import opened Habits

  /** The CSS status class a calendar day gets: 'completed', 'failed' or ''. */
  datatype Status = Completed | Failed | NoStatus

  /** One grid element: an empty padding cell, or a day of the month with its status. */
  datatype Cell = Blank | DayCell(date: int, status: Status)

  /** How day `date` is marked for the selected habit (if any) when the calendar
      is drawn on day `today`. */
  function DayStatus(habit: Option<Habit>, date: Day, today: Day): (s: Status)
    ensures habit.None? ==> s == NoStatus
    ensures s == Completed <==> habit.Some? && date in habit.value.completedDates
    ensures s == Failed ==> date <= today && date !in habit.value.completedDates
    ensures habit.Some? && habit.value.frequency == Daily ==>
      (s == Failed <==> date <= today && date !in habit.value.completedDates)
    ensures habit.Some? && habit.value.frequency == Other ==> s != Failed
  {
    match habit
    case None => NoStatus
    case Some(h) =>
      if date in h.completedDates then Completed
      else if ShouldHaveCompleted(h, date, today) then Failed
      else NoStatus
  }

  /** A weekly habit's day is marked failed exactly when it is an uncompleted
      past Sunday and fewer than goal completions fall in it and the six days after it. */
  lemma WeeklyDayStatus(h: Habit, d: Day, today: Day)
    requires h.frequency == Weekly
    ensures DayStatus(Some(h), d, today) == Failed <==>
      d !in h.completedDates && d <= today && WeekDay(d) == 0 &&
      |Filter(h.completedDates, Between(d, d + 6))| < h.goal
  {
  }

  /** A monthly habit's day is marked failed exactly when it is an uncompleted
      past last day of a month in which fewer than goal completions fall. */
  lemma MonthlyDayStatus(h: Habit, d: Day, today: Day)
    requires h.frequency == Monthly
    ensures DayStatus(Some(h), d, today) == Failed <==>
      d !in h.completedDates && d <= today && d == MonthLast(d) &&
      |Filter(h.completedDates, Between(MonthFirst(d), MonthLast(d)))| < h.goal
  {
    MonthlyMissed(h, d, today);
  }

  /** Consecutive days advance one column of the seven-column grid each. */
  lemma WeekDayShift(d: Day, k: nat)
    ensures WeekDay(d + k) == (WeekDay(d) + k) % 7
  {
  }

  /** The cells of days 1 to n of month m of year y, each marked by DayStatus. */
  function MonthCells(habit: Option<Habit>, y: int, m: int, today: Day, n: nat): (r: seq<Cell>)
    ensures |r| == n
    ensures forall k :: 0 <= k < n ==>
      r[k] == DayCell(k + 1, DayStatus(habit, MakeDay(y, m, k + 1), today))
  {
    if n == 0 then []
    else MonthCells(habit, y, m, today, n - 1) + [DayCell(n, DayStatus(habit, MakeDay(y, m, n), today))]
  }

  /** The status block of renderCalendarDates for one day. */
  method MarkDay(habit: Option<Habit>, day: Day, today: Day) returns (status: Status)
    ensures status == DayStatus(habit, day, today)
  {
    status := NoStatus;
    if habit.Some? {
      if day in habit.value.completedDates {
        status := Completed;
      } else if ShouldHaveCompleted(habit.value, day, today) {
        status := Failed;
      }
    }
  }

  /** n padding cells. */
  function Blanks(n: nat): (r: seq<Cell>)
    ensures |r| == n && forall k :: 0 <= k < n ==> r[k] == Blank
  {
    if n == 0 then [] else Blanks(n - 1) + [Blank]
  }

  /** lastDay.getDate() in renderCalendarDates: the date of day 0 of the next
      month, which is the number of days of month m. This is the same
      computation as lastDayOfMonth (Habits.LastDayOfMonth), here for a year
      and month given directly rather than read from a date. */
  method LastDate(y: int, m: int) returns (n: int)
    requires 0 <= m < 12
    ensures n == DaysInMonth(y, m)
  {
    var lastDay := MakeDay(y, m + 1, 0);
    n := DateOf(lastDay);
    DayZeroDate(y, m);
  }

  /** renderCalendarDates for the month of currentDate (its getFullYear() y and
      getMonth() m): as many blank cells as the weekday of the month's first day,
      then one cell per day of the month, each marked by DayStatus. */
  method CalendarCells(y: int, m: int, habit: Option<Habit>, today: Day) returns (cells: seq<Cell>)
    requires 0 <= m < 12
    ensures cells == Blanks(WeekDay(MakeDay(y, m, 1))) +
      MonthCells(habit, y, m, today, DaysInMonth(y, m))
  {
    var pad := WeekDay(MakeDay(y, m, 1));
    var last := LastDate(y, m);
    cells := [];
    var i := 0;
    while i < pad
      invariant 0 <= i <= pad
      invariant cells == Blanks(i)
    {
      cells := cells + [Blank];
      i := i + 1;
    }
    var date := 1;
    while date <= last
      invariant 1 <= date <= last + 1
      invariant cells == Blanks(pad) + MonthCells(habit, y, m, today, date - 1)
    {
      var day := MakeDay(y, m, date);
      var status := MarkDay(habit, day, today);
      assert MonthCells(habit, y, m, today, date) == MonthCells(habit, y, m, today, date - 1) + [DayCell(date, status)];
      cells := cells + [DayCell(date, status)];
      date := date + 1;
    }
  }

  /** Day `date` of a month sits in the grid column its offset from the first
      of the month gives, counted from the first's weekday. */
  lemma GridColumn(y: int, m: int, date: int)
    requires 1 <= date
    ensures WeekDay(MakeDay(y, m, date)) == (WeekDay(MakeDay(y, m, 1)) + date - 1) % 7
  {
  }

  /** The calendar grid is laid out by weekday: past the padding, the cell at
      position i shows day i - pad + 1 of month m of year y, which lies in that
      month and falls on weekday i % 7. */
  lemma CalendarColumns(y: int, m: int, i: int)
    requires 0 <= m < 12
    requires WeekDay(MakeDay(y, m, 1)) <= i < WeekDay(MakeDay(y, m, 1)) + DaysInMonth(y, m)
    ensures var date := i - WeekDay(MakeDay(y, m, 1)) + 1;
      YearOf(MakeDay(y, m, date)) == y && MonthOf(MakeDay(y, m, date)) == m &&
      DateOf(MakeDay(y, m, date)) == date && WeekDay(MakeDay(y, m, date)) == i % 7
  {
    var pad := WeekDay(MakeDay(y, m, 1));
    var date := i - pad + 1;
    assert WeekDay(MakeDay(y, m, date)) == i % 7 by {
      GridColumn(y, m, date);
      assert pad + date - 1 == i;
    }
    MakeDayExact(y, m, date);
  }

  /** The two figures of the monthly statistics panel. */
  datatype Stats = Stats(completions: nat, goal: int)

  /** updateMonthlyStats: no figures without a selected habit; otherwise the
      completions in the month of `anchor` against a goal of the habit's goal
      (monthly), four times it (weekly) or every day of the month (otherwise). */
  function MonthlyStats(habit: Option<Habit>, anchor: Day): (r: Option<Stats>)
    ensures habit.None? <==> r.None?
    ensures r.Some? ==> r.value.completions == MonthlyCompletions(habit.value, anchor)
    ensures r.Some? && habit.value.frequency == Monthly ==> r.value.goal == habit.value.goal
    ensures r.Some? && habit.value.frequency == Weekly ==> r.value.goal == 4 * habit.value.goal
    ensures r.Some? && habit.value.frequency in {Daily, Other} ==>
      r.value.goal == DaysInMonth(YearOf(anchor), MonthOf(anchor))
  {
    match habit
    case None => None
    case Some(h) =>
      var totalDays := LastDayOfMonth(anchor);
      var completions := MonthlyCompletions(h, anchor);
      var goal := if h.frequency == Monthly then h.goal
                  else if h.frequency == Weekly then h.goal * 4
                  else totalDays;
      Some(Stats(completions, goal))
  }

  /** A daily habit's success rate never passes 100%: a duplicate-free
      completion list cannot hold more days of a month than the month has. */
  lemma DailyRateAtMostFull(h: Habit, anchor: Day)
    requires h.frequency in {Daily, Other}
    requires NoDup(h.completedDates)
    ensures MonthlyStats(Some(h), anchor).value.completions <= MonthlyStats(Some(h), anchor).value.goal
  {
    MonthlyAtMostDays(h, anchor);
  }

  /** The panel and the habit card agree on a monthly habit: both count the
      completions in the month of the day they are given. */
  lemma StatsMatchProgress(h: Habit, today: Day)
    requires h.frequency == Monthly
    ensures MonthlyStats(Some(h), today).value.completions == HabitProgress(h, today)
  {
    MonthlyProgress(h, today);
  }
}
