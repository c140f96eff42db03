/** Habits and categories, and the cadence engine of script.js: whether a date
    counts as missed, the weekly and monthly completion counts, the week number,
    current-period progress, and the toggle of one completion date. */
module Habits {
  import opened Calendar
  import opened Seqs

  /** Habit and category ids (Date.now() at creation); the source's string and
      number forms of an id are one value here. */
  type Id = nat

  datatype Frequency = Daily | Weekly | Monthly | Other

  /** A habit record. completedDates holds the days marked done (each the day a
      toDateString() string names); goal is the parsed goal field. */
  datatype Habit = Habit(
    id: Id,
    name: string,
    description: string,
    category: Id,
    frequency: Frequency,
    goal: int,
    completedDates: seq<Day>,
    createdAt: string)

  datatype Category = Category(id: Id, name: string, icon: string, color: string)

  datatype Option<T> = None | Some(value: T)

  // ---------------------------------------------------------------- records

  /** The record handleHabitSubmit builds: a daily habit always gets goal 1,
      and a new habit has no completions. */
  function NewHabit(id: Id, name: string, description: string, category: Id,
                    frequency: Frequency, goalInput: int, createdAt: string): (h: Habit)
    ensures h.id == id && h.category == category && h.frequency == frequency
    ensures h.name == name && h.description == description && h.createdAt == createdAt
    ensures h.frequency == Daily ==> h.goal == 1
    ensures h.frequency != Daily ==> h.goal == goalInput
    ensures h.completedDates == [] && NoDup(h.completedDates)
  {
    Habit(id, name, description, category, frequency,
          if frequency == Daily then 1 else goalInput, [], createdAt)
  }

  /** The record updateHabit stores: the form's fields replace name, description,
      category, frequency and goal; id, completions and creation time are kept. */
  function Edited(h: Habit, name: string, description: string, category: Id,
                  frequency: Frequency, goal: int): (e: Habit)
    ensures e.id == h.id && e.completedDates == h.completedDates && e.createdAt == h.createdAt
    ensures e.name == name && e.description == description && e.category == category
    ensures e.frequency == frequency && e.goal == goal
  {
    h.(name := name, description := description, category := category,
       frequency := frequency, goal := goal)
  }

  /** The position `find`/`findIndex` stop at: the first habit with this id, or -1. */
  function HabitIndex(habits: seq<Habit>, id: Id): (i: int)
    ensures -1 <= i < |habits|
    ensures i == -1 <==> forall j :: 0 <= j < |habits| ==> habits[j].id != id
    ensures 0 <= i ==> habits[i].id == id && forall j :: 0 <= j < i ==> habits[j].id != id
  {
    if habits == [] then -1
    else if habits[0].id == id then 0
    else
      var k := HabitIndex(habits[1..], id);
      if k == -1 then -1 else k + 1
  }

  // ---------------------------------------------------------------- toggle

  /** completedDates after toggleHabitCompletion: the first occurrence of d is
      spliced out if there is one, otherwise d is pushed at the end. */
  function Toggled(dates: seq<Day>, d: Day): (r: seq<Day>)
    ensures |r| == if d in dates then |dates| - 1 else |dates| + 1
    ensures forall x :: x != d ==> (x in r <==> x in dates)
    ensures d !in dates ==> d in r
  {
    if d in dates then
      var i := FirstIndex(dates, d);
      assert dates == dates[..i] + [d] + dates[i + 1..];
      dates[..i] + dates[i + 1..]
    else dates + [d]
  }

  /** Toggling adds or removes exactly one copy of d; every other date keeps its multiplicity. */
  lemma ToggleMultiset(dates: seq<Day>, d: Day)
    ensures d in dates ==> multiset(Toggled(dates, d)) == multiset(dates) - multiset{d}
    ensures d !in dates ==> multiset(Toggled(dates, d)) == multiset(dates) + multiset{d}
    ensures forall x :: x != d ==> multiset(Toggled(dates, d))[x] == multiset(dates)[x]
  {
    if d in dates {
      var i := FirstIndex(dates, d);
      assert dates == dates[..i] + [d] + dates[i + 1..];
      assert multiset(dates) == multiset(dates[..i]) + multiset{d} + multiset(dates[i + 1..]);
    }
  }

  /** On a duplicate-free list, toggling flips whether d is present. */
  lemma ToggleFlips(dates: seq<Day>, d: Day)
    requires NoDup(dates)
    ensures d in Toggled(dates, d) <==> d !in dates
  {
    if d in dates {
      var i := FirstIndex(dates, d);
      var r := dates[..i] + dates[i + 1..];
      forall k | 0 <= k < |r|
        ensures r[k] != d
      {
        if k < i {
          assert r[k] == dates[..i][k];
        } else {
          assert r[k] == dates[k + 1];
        }
      }
    }
  }

  /** Toggling keeps a completion list duplicate-free. */
  lemma ToggleKeepsNoDup(dates: seq<Day>, d: Day)
    requires NoDup(dates)
    ensures NoDup(Toggled(dates, d))
  {
    if d in dates {
      var i := FirstIndex(dates, d);
      var r := dates[..i] + dates[i + 1..];
      forall a, b | 0 <= a < b < |r|
        ensures r[a] != r[b]
      {
        var a', b' := if a < i then a else a + 1, if b < i then b else b + 1;
        assert r[a] == dates[a'] && r[b] == dates[b'];
      }
    }
  }

  /** Toggling the same date twice restores the list when the date was absent,
      and restores its contents (as a multiset) on a duplicate-free list. */
  lemma ToggleTwice(dates: seq<Day>, d: Day)
    ensures d !in dates ==> Toggled(Toggled(dates, d), d) == dates
    ensures NoDup(dates) ==> multiset(Toggled(Toggled(dates, d), d)) == multiset(dates)
  {
    if d !in dates {
      var once := dates + [d];
      assert d in once;
      var i := FirstIndex(once, d);
      assert forall k :: 0 <= k < |dates| ==> once[k] == dates[k];
      assert i == |dates|;
      assert once[..i] + once[i + 1..] == dates;
    } else if NoDup(dates) {
      ToggleMultiset(dates, d);
      ToggleFlips(dates, d);
      ToggleMultiset(Toggled(dates, d), d);
    }
  }

  // ---------------------------------------------------------------- periods

  /** Day predicates used as filter callbacks. */
  function Between(lo: Day, hi: Day): Day -> bool
  {
    c => lo <= c <= hi
  }

  function SameMonthAs(date: Day): Day -> bool
  {
    c => MonthOf(c) == MonthOf(date) && YearOf(c) == YearOf(date)
  }

  /** weekStart in getWeeklyCompletions: the Sunday on or before date. */
  function WeekStart(date: Day): (s: Day)
    ensures WeekDay(s) == 0 && s <= date < s + 7
  {
    date - WeekDay(date)
  }

  /** The source computes weekStart as a copy of date moved by
      setDate(getDate() - getDay()), and weekEnd as a copy of weekStart moved by
      setDate(getDate() + 6); across month and year ends these are WeekStart and
      the sixth day after it. */
  lemma WeekBoundsBySetDate(date: Day)
    ensures SetDate(date, DateOf(date) - WeekDay(date)) == WeekStart(date)
    ensures SetDate(WeekStart(date), DateOf(WeekStart(date)) + 6) == WeekStart(date) + 6
  {
  }

  /** getWeeklyCompletions: the number of completions c with
      weekStart <= c <= weekEnd, i.e. in the Sunday on or before date and the six
      days after it. */
  function WeeklyCompletions(h: Habit, date: Day): (n: nat)
    ensures n <= |h.completedDates|
  {
    |Filter(h.completedDates, Between(WeekStart(date), WeekStart(date) + 6))|
  }

  /** A duplicate-free completion list has at most hi - lo + 1 dates in [lo, hi]. */
  lemma WindowBound(dates: seq<Day>, lo: Day, hi: Day)
    requires lo <= hi + 1
    requires NoDup(dates)
    ensures |Filter(dates, Between(lo, hi))| <= hi - lo + 1
  {
    var r := Filter(dates, Between(lo, hi));
    FilterNoDup(dates, Between(lo, hi));
    NoDupRangeBound(r, lo, hi + 1);
  }

  /** A duplicate-free completion list has at most seven dates in any weekly window. */
  lemma WeeklyAtMostSeven(h: Habit, date: Day)
    requires NoDup(h.completedDates)
    ensures WeeklyCompletions(h, date) <= 7
  {
    var s := WeekStart(date);
    WindowBound(h.completedDates, s, s + 6);
  }

  /** A completion on date x adds one to the weekly count exactly when x lies in
      the window; the days just before and just after it do not count. */
  lemma WeeklyAppend(h: Habit, date: Day, x: Day)
    ensures var s := WeekStart(date);
      WeeklyCompletions(h.(completedDates := h.completedDates + [x]), date) ==
      WeeklyCompletions(h, date) + (if s <= x <= s + 6 then 1 else 0)
  {
    var s := WeekStart(date);
    FilterAppend(h.completedDates, [x], Between(s, s + 6));
  }

  /** The days just before and just after the weekly window do not count. */
  lemma WeeklyIgnoresNeighbours(h: Habit, date: Day)
    ensures var s := WeekStart(date);
      WeeklyCompletions(h.(completedDates := h.completedDates + [s - 1]), date) == WeeklyCompletions(h, date) &&
      WeeklyCompletions(h.(completedDates := h.completedDates + [s + 7]), date) == WeeklyCompletions(h, date)
  {
    WeeklyAppend(h, date, WeekStart(date) - 1);
    WeeklyAppend(h, date, WeekStart(date) + 7);
  }

  /** getMonthlyCompletions: completions in the same month and year as date. */
  function MonthlyCompletions(h: Habit, date: Day): (n: nat)
    ensures n <= |h.completedDates|
  {
    |Filter(h.completedDates, SameMonthAs(date))|
  }

  /** The first and last day of the month of date. */
  function MonthFirst(date: Day): Day
  {
    MakeDay(YearOf(date), MonthOf(date), 1)
  }

  function MonthLast(date: Day): Day
  {
    MonthFirst(date) + DaysInMonth(YearOf(date), MonthOf(date)) - 1
  }

  /** Sharing the month and year of date is lying between that month's first and last day. */
  lemma SameMonthTest(c: Day, date: Day)
    ensures SameMonthAs(date)(c) == Between(MonthFirst(date), MonthLast(date))(c)
  {
    MonthRange(c, YearOf(date), MonthOf(date));
  }

  /** The monthly count is the number of completions in the month's range of days. */
  lemma MonthlyAsRange(h: Habit, date: Day)
    ensures MonthlyCompletions(h, date) == |Filter(h.completedDates, Between(MonthFirst(date), MonthLast(date)))|
  {
    forall c | c in h.completedDates
      ensures SameMonthAs(date)(c) == Between(MonthFirst(date), MonthLast(date))(c)
    {
      SameMonthTest(c, date);
    }
    FilterAgree(h.completedDates, SameMonthAs(date), Between(MonthFirst(date), MonthLast(date)));
  }

  /** A duplicate-free completion list has at most as many dates in a month as the month has days. */
  lemma MonthlyAtMostDays(h: Habit, date: Day)
    requires NoDup(h.completedDates)
    ensures MonthlyCompletions(h, date) <= DaysInMonth(YearOf(date), MonthOf(date))
  {
    MonthlyAsRange(h, date);
    WindowBound(h.completedDates, MonthFirst(date), MonthLast(date));
  }

  /** lastDayOfMonth: getDate() of "day 0 of the next month", which is the
      number of days in the month of date. */
  function LastDayOfMonth(date: Day): (n: int)
    ensures n == DaysInMonth(YearOf(date), MonthOf(date))
    ensures 28 <= n <= 31
    ensures MonthOf(date) == 1 ==> (n == 29 <==> IsLeapYear(YearOf(date)))
  {
    var y, m := YearOf(date), MonthOf(date);
    DayZeroDate(y, m);
    DateOf(MakeDay(y, m + 1, 0))
  }

  // ---------------------------------------------------------------- missed dates

  /** shouldHaveCompleted: whether date shows as missed, judged on day today. */
  function ShouldHaveCompleted(h: Habit, date: Day, today: Day): (r: bool)
    ensures date > today ==> !r
    ensures h.frequency == Daily ==> (r <==> date <= today)
    ensures h.frequency == Other ==> !r
    ensures r && h.frequency == Weekly ==> WeekDay(date) == 0
    ensures r && h.frequency == Monthly ==> DateOf(date) == DaysInMonth(YearOf(date), MonthOf(date))
  {
    if date > today then false
    else match h.frequency
      case Daily => true
      case Weekly => WeekDay(date) == 0 && WeeklyCompletions(h, date) < h.goal
      case Monthly => DateOf(date) == LastDayOfMonth(date) && MonthlyCompletions(h, date) < h.goal
      case Other => false
  }

  /** A weekly habit is missed on a past Sunday exactly when fewer than goal
      completions fall in that Sunday and the six days after it. */
  lemma WeeklyMissed(h: Habit, date: Day, today: Day)
    requires h.frequency == Weekly
    ensures ShouldHaveCompleted(h, date, today) <==>
      date <= today && WeekDay(date) == 0 &&
      |Filter(h.completedDates, Between(date, date + 6))| < h.goal
  {
    if WeekDay(date) == 0 {
      assert WeekStart(date) == date;
    }
  }

  /** A monthly habit is missed on a past last day of a month exactly when fewer
      than goal completions fall in that month. */
  lemma MonthlyMissed(h: Habit, date: Day, today: Day)
    requires h.frequency == Monthly
    ensures ShouldHaveCompleted(h, date, today) <==>
      date <= today && date == MonthLast(date) &&
      |Filter(h.completedDates, Between(MonthFirst(date), MonthLast(date)))| < h.goal
  {
    LastDayOfItsMonth(date);
    MonthlyAsRange(h, date);
  }

  // ---------------------------------------------------------------- progress

  /** getWeekNumber over whole days: Math.ceil((pastDaysOfYear + getDay() of 1 January + 1) / 7). */
  function WeekNumber(d: Day): (w: int)
    ensures 1 <= w <= 54
  {
    var firstDayOfYear := MakeDay(YearOf(d), 0, 1);
    MakeDayInYear(YearOf(d), 0, 1);
    YearLength(YearOf(d));
    var pastDaysOfYear := d - firstDayOfYear;
    (pastDaysOfYear + WeekDay(firstDayOfYear) + 1 + 6) / 7
  }

  /** The arithmetic behind WeekNumberSameWeek: with j the first day of the
      year, ceil((a - j + weekday(j) + 1) / 7) groups days by the Sunday that
      starts their week. */
  lemma WeekArithmetic(j: int, a: int, b: int)
    requires j <= a && j <= b
    ensures ((a - j + WeekDay(j) + 1 + 6) / 7 == (b - j + WeekDay(j) + 1 + 6) / 7) <==>
      (a - WeekDay(a) == b - WeekDay(b))
  {
  }

  /** Within one year, two days share a week number exactly when they share a
      Sunday-to-Saturday week. */
  lemma WeekNumberSameWeek(a: Day, b: Day)
    requires YearOf(a) == YearOf(b)
    ensures WeekNumber(a) == WeekNumber(b) <==> WeekStart(a) == WeekStart(b)
  {
    var j := MakeDay(YearOf(a), 0, 1);
    assert j <= a && j <= b by {
      MakeDayInYear(YearOf(a), 0, 1);
    }
    assert WeekNumber(a) == (a - j + WeekDay(j) + 1 + 6) / 7;
    assert WeekNumber(b) == (b - j + WeekDay(j) + 1 + 6) / 7;
    WeekArithmetic(j, a, b);
  }

  function SameWeekNumberAs(today: Day): Day -> bool
  {
    c => WeekNumber(c) == WeekNumber(today) && YearOf(c) == YearOf(today)
  }

  /** getHabitProgress: the current count toward the goal on day today. */
  function HabitProgress(h: Habit, today: Day): (current: nat)
    ensures current <= |h.completedDates|
    ensures h.frequency != Weekly && h.frequency != Monthly ==>
      (current == 1 <==> today in h.completedDates) && current <= 1
  {
    match h.frequency
      case Weekly => |Filter(h.completedDates, SameWeekNumberAs(today))|
      case Monthly => |Filter(h.completedDates, SameMonthAs(today))|
      case _ => if today in h.completedDates then 1 else 0
  }

  /** A monthly habit's progress is getMonthlyCompletions for today's month. */
  lemma MonthlyProgress(h: Habit, today: Day)
    requires h.frequency == Monthly
    ensures HabitProgress(h, today) == MonthlyCompletions(h, today)
    ensures NoDup(h.completedDates) ==> HabitProgress(h, today) <= DaysInMonth(YearOf(today), MonthOf(today))
  {
    if NoDup(h.completedDates) {
      MonthlyAtMostDays(h, today);
    }
  }

  /** Completions in today's Sunday-to-Saturday week that also fall in today's year. */
  function InWeekAndYear(today: Day): Day -> bool
  {
    c => YearOf(c) == YearOf(today) && WeekStart(today) <= c <= WeekStart(today) + 6
  }

  /** The weekly progress test, restated without week numbers. */
  lemma WeekNumberTest(c: Day, today: Day)
    ensures SameWeekNumberAs(today)(c) == InWeekAndYear(today)(c)
  {
    if YearOf(c) == YearOf(today) {
      WeekNumberSameWeek(c, today);
      SundayWeek(c, WeekStart(today));
    }
  }

  /** A weekly habit's progress counts the completions in today's
      Sunday-to-Saturday week that also fall in today's year, so it never
      exceeds getWeeklyCompletions for today. */
  lemma WeeklyProgress(h: Habit, today: Day)
    requires h.frequency == Weekly
    ensures HabitProgress(h, today) == |Filter(h.completedDates, InWeekAndYear(today))|
    ensures HabitProgress(h, today) <= WeeklyCompletions(h, today)
  {
    var s := WeekStart(today);
    WeekNumberFilter(h.completedDates, today);
    FilterCountMonotone(h.completedDates, InWeekAndYear(today), Between(s, s + 6));
  }

  /** Filtering by week number is filtering by week and year. */
  lemma WeekNumberFilter(dates: seq<Day>, today: Day)
    ensures Filter(dates, SameWeekNumberAs(today)) == Filter(dates, InWeekAndYear(today))
  {
    forall c | c in dates
      ensures SameWeekNumberAs(today)(c) == InWeekAndYear(today)(c)
    {
      WeekNumberTest(c, today);
    }
    FilterAgree(dates, SameWeekNumberAs(today), InWeekAndYear(today));
  }

  /** When today's week lies inside one year, every day of it is in today's year. */
  lemma WeekWithinYearTest(c: Day, today: Day)
    requires YearOf(WeekStart(today)) == YearOf(WeekStart(today) + 6)
    ensures InWeekAndYear(today)(c) == Between(WeekStart(today), WeekStart(today) + 6)(c)
  {
    var s := WeekStart(today);
    if s <= c <= s + 6 {
      YearUnique(c, YearOf(s));
      YearUnique(today, YearOf(s));
    }
  }

  /** Over whole days, when today's week lies inside one year, the two weekly rules agree. */
  lemma WeeklyProgressWithinYear(h: Habit, today: Day)
    requires h.frequency == Weekly
    requires YearOf(WeekStart(today)) == YearOf(WeekStart(today) + 6)
    ensures HabitProgress(h, today) == WeeklyCompletions(h, today)
  {
    var s := WeekStart(today);
    WeeklyProgress(h, today);
    assert Filter(h.completedDates, InWeekAndYear(today)) == Filter(h.completedDates, Between(s, s + 6)) by {
      forall c | c in h.completedDates
        ensures InWeekAndYear(today)(c) == Between(s, s + 6)(c)
      {
        WeekWithinYearTest(c, today);
      }
      FilterAgree(h.completedDates, InWeekAndYear(today), Between(s, s + 6));
    }
  }

  /** The two weekly rules part at a new year that does not start on a Sunday
      (2025, say, starts on a Wednesday): a completion on the year's eve lies in
      the Sunday-to-Saturday window getWeeklyCompletions counts on New Year's
      Day, but not in the current-year week getHabitProgress counts. */
  lemma WeeklyRulesDifferAtNewYear(h: Habit, y: int)
    requires h.frequency == Weekly
    requires h.completedDates == [DayFromYear(y) - 1]
    requires WeekDay(DayFromYear(y)) != 0
    ensures WeeklyCompletions(h, DayFromYear(y)) == 1
    ensures HabitProgress(h, DayFromYear(y)) == 0
  {
    var today := DayFromYear(y);
    YearLength(y);
    YearLength(y - 1);
    YearUnique(today, y);
    YearUnique(today - 1, y - 1);
    assert Filter(h.completedDates, Between(WeekStart(today), WeekStart(today) + 6)) == [today - 1];
    WeeklyProgress(h, today);
    assert Filter(h.completedDates, InWeekAndYear(today)) == [];
  }
}
