# Habit cadence engine — a Dafny model

This project models the core of a browser habit tracker, `script.js`. A user keeps
categories and habits. Each habit has a frequency (daily, weekly or monthly), a
goal, and a list of completion dates. The model covers these parts of the tracker:

- **Missed dates.** `shouldHaveCompleted` decides whether a calendar day counts as
  missed. It uses the weekly and monthly completion counts (`getWeeklyCompletions`,
  `getMonthlyCompletions`) and `lastDayOfMonth`.
- **Progress.** `getHabitProgress` uses `getWeekNumber` to report progress in the
  current period.
- **Calendar.** `renderCalendarDates` builds the month grid.
- **Statistics.** `updateMonthlyStats` builds the monthly statistics panel.
- **State edits.** These change the `state` object in place: add a habit or a
  category, toggle today's completion, edit a habit, delete a habit, and delete a
  category together with its habits.

Modules:

- `Calendar` (`calendar.dfy`) is the date arithmetic of the JavaScript `Date` object,
  using whole days. Its parts follow section 21.4.1 of ECMA-262 (the Day, WeekDay,
  DayFromYear, YearFromTime, MonthFromTime, DateFromTime and MakeDay abstract
  operations):
  - A day is an integer counted from 1970-01-01.
  - Its weekday is `(d + 4) % 7`.
  - Its year, month and date come from a proleptic Gregorian conversion.
  - `MakeDay` carries month overflow and day 0, as `new Date(y, m, d)` does for a
    year of 100 or later.
- `Seqs` (`seqs.dfy`) holds `Array.prototype.filter`, the first-occurrence index,
  and the no-duplicates discipline.
- `Habits` (`habits.dfy`) holds the habit record, the toggle of one date, the
  period counts, the missed-date test, the week number and progress.
- `Analytics` (`analytics.dfy`) holds the calendar grid (two counting loops) and
  the monthly statistics.
- `Store` (`store.dfy`) is the `state` object: a class with `habits` and
  `categories` sequences, and methods that reassign them.

Conventions:

- A completion date is stored in the source as a `toDateString()` string. Here it
  is the day that string names.
- The moment `new Date()` becomes a `today` parameter.
- Habit and category ids are one natural-number type. The source's
  `toString()`/`parseInt` comparisons of ids are equality on it.
- A frequency outside the three known values is `Other`.

Three behaviours of the code are easy to misread; the model follows the code:

- **The weekly missed-date check.** It runs on Sundays. It counts the completions
  from that Sunday to the following Saturday, i.e. the week that the checked Sunday
  opens, not one that it closes (`script.js:205`, `script.js:214-224`).
- **Weekly progress.** `getHabitProgress` counts completions with the same week
  number and year as today. This is a different rule from the Sunday-to-Saturday
  window. Over whole days the two agree whenever the window lies inside one year. At
  a new year that starts mid-week they differ (`Habits.WeeklyRulesDifferAtNewYear`).
  The source also differs on Saturdays, because it takes the current week number
  at the current moment rather than at midnight (see "## Left out").
- **Goals.** `updateHabit` stores the parsed goal as given, even for a daily habit.
  Only `handleHabitSubmit` forces goal 1 for daily habits. `script.js` itself never
  checks the goal; only the edit form's `min="1"` attribute (`script.js:676`) does.

## Model

| member | source | states |
|---|---|---|
| Calendar.WeekDay | script.js:164 | getDay gives a weekday from 0 (Sunday) to 6; WeekDayShift shows that each following day advances it by one modulo 7. |
| Calendar.DayFromYearIsFormula | script.js:162-163 | The recursive year-start day that `new Date(y, m, d)` relies on equals the closed form of ECMA-262 DayFromYear, for every year before or after 1970. |
| Calendar.YearOf | script.js:229-230 | getFullYear: the year returned is the one whose first day is at or before d and whose successor's first day is after d. |
| Calendar.YearUnique | script.js:229-230 | Any year whose start bracket holds d is the year getFullYear returns. |
| Calendar.MonthOf | script.js:229 | getMonth gives a month from 0 to 11; MonthOfBounds places the day between that month's start and the next month's start. |
| Calendar.DateOf | script.js:205-207 | getDate gives a date from 1 up to the length of the day's month. |
| Calendar.MakeDay | script.js:173-174 | `new Date(y, m, date)` with a month 0 to 11 and a date within that month gives a day inside year y; MakeDayExact gives its exact year, month and date. |
| Calendar.SetDate | script.js:216-218 | `setDate(n)` moves a day by n minus its date, across month and year ends too. |
| Calendar.MonthOfBounds | script.js:229 | The months partition the year: a day lies between its month's start and the next month's start. |
| Calendar.DaysInMonth | script.js:234-236 | A month has 28 to 31 days, and February has 29 exactly in Gregorian leap years. |
| Calendar.MonthStartTable | script.js:162-163 | Cumulative month starts equal the MonthFromTime table of ECMA-262, plus one day after February in leap years. |
| Calendar.MonthsFillYear | script.js:162-163 | The twelve months together last exactly as long as the year. |
| Calendar.DecomposeDay | script.js:172-174 | Every day is rebuilt by `new Date(getFullYear(), getMonth(), getDate())`. |
| Calendar.MakeDayExact | script.js:172-174 | `new Date(y, m, date)` for a valid date has exactly that year, month and date. |
| Calendar.MonthRange | script.js:226-232 | Sharing a month and year with a day means lying in that month's range of days. |
| Calendar.DayZeroOfNextMonth | script.js:163 | "Day 0 of month m + 1" is the last day of month m, December included. |
| Calendar.DayZeroDate | script.js:163 | getDate of "day 0 of month m + 1" is the number of days of month m. |
| Calendar.SundayWeek | script.js:214-218 | For a Sunday s, a day's own week start is s exactly when the day lies in [s, s + 6]. |
| Calendar.LastDayOfItsMonth | script.js:207 | A day's date equals its month's length exactly when it is the month's last day. |
| Seqs.Filter | script.js:220-223 | `filter` keeps exactly the elements satisfying the callback and never lengthens the list. |
| Seqs.FirstIndex | script.js:438 | `indexOf` of a present element is its first position. |
| Habits.NewHabit | script.js:300-309 | The new record has the form's fields and no completions. A daily habit gets goal 1; any other frequency keeps the parsed goal. |
| Habits.Edited | script.js:702-709 | The edit replaces name, description, category, frequency and goal, and keeps id, completions and creation time. |
| Habits.HabitIndex | script.js:434 | `find`/`findIndex` by id gives the first habit with that id, or -1 exactly when there is none. |
| Habits.Toggled | script.js:437-444 | Toggling shortens the list by one when the date is present and lengthens it by one otherwise; an absent date becomes present; every other date stays present or absent as before. ToggleMultiset, ToggleFlips and ToggleTwice give the rest. |
| Habits.ToggleMultiset | script.js:437-444 | Toggling removes one copy of a present date or appends an absent one. Every other date keeps its multiplicity. |
| Habits.ToggleFlips | script.js:437-444 | On a duplicate-free list, toggling flips whether the date is present. |
| Habits.ToggleKeepsNoDup | script.js:437-444 | Toggling keeps a duplicate-free list duplicate-free. |
| Habits.ToggleTwice | script.js:437-444 | Toggling twice restores an absent date's list exactly, and a duplicate-free list's contents. |
| Habits.WeekStart | script.js:215-216 | The week start is a Sunday, at most six days before the date. |
| Habits.WeekBoundsBySetDate | script.js:215-218 | The source's setDate computations of weekStart and weekEnd give the Sunday on or before the date and the sixth day after it. |
| Habits.WeeklyCompletions | script.js:214-224 | The weekly count never exceeds the number of completions; WeeklyAtMostSeven, WeeklyAppend and WeeklyMissed pin it to the window [weekStart, weekStart + 6]. |
| Habits.WindowBound | script.js:220-223 | A duplicate-free list has at most hi - lo + 1 dates in [lo, hi]. |
| Habits.WeeklyAtMostSeven | script.js:214-224 | With no duplicate dates, the weekly count is at most 7. |
| Habits.WeeklyAppend | script.js:214-224 | A new completion raises the weekly count by one exactly when it falls in [weekStart, weekStart + 6]. |
| Habits.WeeklyIgnoresNeighbours | script.js:214-224 | Completions on the day before weekStart or the day after weekEnd are not counted. |
| Habits.MonthlyCompletions | script.js:226-232 | The monthly count never exceeds the number of completions; MonthlyAsRange and MonthlyAtMostDays tie it to the month's range of days. |
| Habits.MonthlyAsRange | script.js:226-232 | The same-month-and-year count is the count of completions between the month's first and last day. |
| Habits.MonthlyAtMostDays | script.js:226-232 | With no duplicate dates, the monthly count is at most the month's length. |
| Habits.LastDayOfMonth | script.js:234-236 | "Day 0 of next month" gives the month's length: 28 to 31, and 29 in February exactly in leap years. |
| Habits.ShouldHaveCompleted | script.js:196-212 | A future date is never missed. A daily habit is missed on every date up to today. An unknown frequency is never missed. A weekly habit is flagged only on Sundays, and a monthly one only on the month's last day. |
| Habits.WeeklyMissed | script.js:204-205 | A weekly habit is missed on a date exactly when it is not in the future, is a Sunday, and [that Sunday, that Sunday + 6] holds fewer than goal completions. |
| Habits.MonthlyMissed | script.js:206-208 | A monthly habit is missed on a date exactly when it is not in the future, is its month's last day, and the month holds fewer than goal completions. |
| Habits.WeekNumber | script.js:525-529 | A week number lies between 1 and 54; WeekNumberSameWeek shows that within a year it changes exactly at each Sunday. |
| Habits.WeekArithmetic | script.js:525-529 | The ceiling formula of getWeekNumber groups days after January 1 by the Sunday that starts their week. |
| Habits.WeekNumberSameWeek | script.js:525-529 | Within one year, two days share a week number exactly when they share a Sunday-to-Saturday week. |
| Habits.HabitProgress | script.js:531-554 | Progress never exceeds the number of completions. For a daily (or unknown) habit it is 1 exactly when today is completed, and 0 otherwise. |
| Habits.MonthlyProgress | script.js:544-549 | A monthly habit's progress is getMonthlyCompletions for today's month. With no duplicates it is at most the month's length. |
| Habits.WeekNumberTest | script.js:536-540 | The week-number-and-year test picks the days of today's week that fall in today's year. |
| Habits.WeekNumberFilter | script.js:536-540 | Filtering by week number and year equals filtering by week window and year. |
| Habits.WeeklyProgress | script.js:536-542 | A weekly habit's progress counts the completions in today's week and year, and never exceeds the weekly window count. |
| Habits.WeekWithinYearTest | script.js:536-540 | When today's week lies in one year, the week-and-year test is the window test. |
| Habits.WeeklyProgressWithinYear | script.js:536-542 | Over whole days, when today's week lies in one year, weekly progress equals getWeeklyCompletions for today. |
| Habits.WeeklyRulesDifferAtNewYear | script.js:536-542 | On the first day of a year that does not start on a Sunday, a completion on the previous day counts in the weekly window but not in weekly progress. |
| Analytics.DayStatus | script.js:176-183 | Without a habit there is no status. Completed exactly when the day is in the completion list; completed takes precedence over failed. Failed only for past or present days that are not completed. For a daily habit, failed exactly for such days. Never failed for an unknown frequency. |
| Analytics.WeeklyDayStatus | script.js:176-183 | A weekly habit's day is failed exactly when it is uncompleted, not in the future, a Sunday, and [that Sunday, that Sunday + 6] holds fewer than goal completions. |
| Analytics.MonthlyDayStatus | script.js:176-183 | A monthly habit's day is failed exactly when it is uncompleted, not in the future, its month's last day, and the month holds fewer than goal completions. |
| Analytics.WeekDayShift | script.js:164 | Each following day advances the weekday by one, modulo 7. |
| Analytics.MonthCells | script.js:172-186 | Cell k of the day cells is day k + 1 of the month, marked with that day's status. |
| Analytics.MarkDay | script.js:176-183 | The status block computes DayStatus. |
| Analytics.LastDate | script.js:163 | `lastDay.getDate()` is the number of days of the displayed month. |
| Analytics.Blanks | script.js:167-169 | The padding is n blank cells. |
| Analytics.CalendarCells | script.js:158-187 | The grid is weekday-of-day-1 blank cells, then one day cell for each date from 1 to `lastDay.getDate()` (the month's length), each with its status. |
| Analytics.GridColumn | script.js:164-174 | Day `date` falls on the first's weekday plus date - 1, modulo 7. |
| Analytics.CalendarColumns | script.js:162-186 | Past the padding, grid position i shows a day of the displayed month with date i - pad + 1 and weekday i % 7. |
| Analytics.MonthlyStats | script.js:238-249 | No figures without a habit. Otherwise the completions are the displayed month's count, and the goal is goal for monthly habits, goal * 4 for weekly ones, and the month's length otherwise. |
| Analytics.DailyRateAtMostFull | script.js:245-249 | For a daily habit with no duplicate dates, the completions never exceed the goal, so the success rate is at most 100%. |
| Analytics.StatsMatchProgress | script.js:226-232 | For a monthly habit, the statistics panel and the progress bar report the same count. |
| Store.IndexOf | script.js:438 | `indexOf` gives -1 exactly when the date is absent, and otherwise its first position. |
| Store.FindHabitIndex | script.js:699-700 | `findIndex` by id gives HabitIndex: the first habit with that id, or -1 when there is none. |
| Store.CascadeKeepsResolved | script.js:347-348 | If every habit names an existing category, that still holds after the category and its habits are deleted. |
| Store.DeleteHabitInOrder | script.js:719 | Deletion keeps the remaining habits in order: it distributes over concatenation, and leaves alone a list with nothing to delete. |
| Store.HabitStore.ValidHabitBounds | script.js:214-249 | In a store whose completion lists are duplicate-free, every habit has at most 7 completions in a weekly window and at most the month's length in a month. A daily habit's success rate is at most 100%, and a toggle flips whether the date is present. |
| Store.HabitStore.constructor | script.js:2-8 | The initial state (and the default one after a failed load) has no habits and no categories. |
| Store.HabitStore.AddCategory | script.js:281-291 | The new category is appended, and habits are unchanged. |
| Store.HabitStore.AddHabit | script.js:297-311 | The record NewHabit builds is appended, and completion lists stay duplicate-free. |
| Store.HabitStore.ToggleHabitCompletion | script.js:433-444 | The first habit with the id gets its completion list toggled at today, and every other habit is unchanged. With no such habit nothing changes. Duplicate-freedom is kept, and on a duplicate-free list today's completion flips. |
| Store.HabitStore.UpdateHabit | script.js:698-709 | The first habit with the id is replaced by its edit. With no such habit nothing changes. |
| Store.HabitStore.DeleteHabit | script.js:716-723 | Exactly the habits with the id are removed, and the rest stay in order. |
| Store.HabitStore.DeleteCategory | script.js:342-349 | Exactly the habits of the category and the category itself are removed. The rest stay in order, and references stay resolved. |

## Left out

- Rendering and DOM work are not modelled: element creation, `innerHTML`, the page switch, category and habit cards, the dropdown, the edit form toggle and the goal-input toggle. They only display state.
- Event wiring, touch handlers and the orientation listener are not modelled. They only dispatch to the operations above.
- The theme toggle and `localStorage` persistence are left out: they are JSON I/O and `alert`. The initial and default state is modelled by the constructor; the theme setting is not.
- The `confirm()` dialogs are replaced by the path where the user confirms. Declining changes nothing.
- `debounce`, `setTimeout` and `requestAnimationFrame` are left out because they only schedule work asynchronously.
- The success-rate percentage `Math.round((completions/goal)*100)` and the progress-bar width are left out because both are floating-point division. The bar width is NaN when there are no habits. The model keeps the integer completions and goal they are computed from.
- Habits.WeekNumber, Habits.HabitProgress, Habits.WeeklyProgress, Habits.WeeklyProgressWithinYear: computed over whole days, with `today` at midnight. For `now`, the source divides a millisecond difference that includes the time of day before `Math.ceil`. On a Saturday, at every moment after midnight, the source's week number for `now` is one higher than the model's. So the source's weekly progress on a Saturday counts the following Sunday-to-Saturday week, which holds no completions yet, and shows 0. The model's weekly progress, and its agreement with getWeeklyCompletions within one year, hold for the day as a whole, not for those Saturday moments.
- Calendar.MakeDay: does not model the Date constructor's reading of a year from 0 to 99 as 1900 to 1999. Every year the modelled operations pass comes from `getFullYear()` of a real date, so no modelled path builds such a date.
- `changeMonth` (`setMonth` with day-of-month overflow) is not modelled. It only moves the displayed month, which the calendar operations take as the year and month parameters `y` and `m`.
- Time zones, the Date object's range limit of ±10⁸ days, and the parsing of `toDateString()` strings are not modelled. Each completion string is taken to name exactly one day.
- `parseInt` producing NaN for a non-numeric id or goal is not modelled. Ids are naturals, and goals are any integer.
- Object aliasing is not modelled. The source mutates the habit object that `find` returns, and the model replaces the habit at that index instead. No other reference to a habit object exists in the modelled operations.
