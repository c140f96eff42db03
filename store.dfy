/** The application state of script.js (its `state.habits` and `state.categories`
    arrays) and the operations that change it in place: adding a habit or a
    category, toggling today's completion, editing a habit, and deleting a
    habit or a category together with its habits. */
module Store {
  import opened Calendar
  import opened Seqs
  import opened Habits
  import opened Analytics

  /** Array.prototype.indexOf on a completion list: the first position of x, or -1. */
  method IndexOf(s: seq<Day>, x: Day) returns (i: int)
    ensures -1 <= i < |s|
    ensures i == -1 <==> x !in s
    ensures 0 <= i ==> s[i] == x && x !in s[..i]
  {
    i := 0;
    while i < |s|
      invariant 0 <= i <= |s|
      invariant x !in s[..i]
    {
      if s[i] == x {
        return;
      }
      assert s[..i + 1] == s[..i] + [s[i]];
      i := i + 1;
    }
    assert s[..i] == s;
    i := -1;
  }

  /** Array.prototype.findIndex with `h.id === habitId`. */
  method FindHabitIndex(habits: seq<Habit>, id: Id) returns (i: int)
    ensures i == HabitIndex(habits, id)
    ensures i == -1 <==> forall j :: 0 <= j < |habits| ==> habits[j].id != id
    ensures 0 <= i ==> i < |habits| && habits[i].id == id
  {
    i := 0;
    while i < |habits|
      invariant 0 <= i <= |habits|
      invariant forall j :: 0 <= j < i ==> habits[j].id != id
    {
      if habits[i].id == id {
        return;
      }
      i := i + 1;
    }
    i := -1;
  }

  /** A position found by indexOf is the one Toggled splices at. */
  lemma FoundIsFirst(s: seq<Day>, x: Day, i: int)
    requires 0 <= i < |s| && s[i] == x && x !in s[..i]
    ensures i == FirstIndex(s, x)
  {
  }

  /** The filters deleteHabit and deleteCategory apply. */
  function OtherHabit(id: Id): Habit -> bool
  {
    (h: Habit) => h.id != id
  }

  function OutsideCategory(c: Id): Habit -> bool
  {
    (h: Habit) => h.category != c
  }

  function OtherCategory(c: Id): Category -> bool
  {
    (x: Category) => x.id != c
  }

  /** Every habit names a category that exists. */
  ghost predicate Resolved(habits: seq<Habit>, categories: seq<Category>)
  {
    forall h :: h in habits ==> exists x :: x in categories && x.id == h.category
  }

  /** deleteCategory keeps references resolved: the only habits whose category
      goes away are the ones it removes with it. */
  lemma CascadeKeepsResolved(habits: seq<Habit>, categories: seq<Category>, c: Id)
    requires Resolved(habits, categories)
    ensures Resolved(Filter(habits, OutsideCategory(c)), Filter(categories, OtherCategory(c)))
  {
    var kept := Filter(categories, OtherCategory(c));
    forall h | h in Filter(habits, OutsideCategory(c))
      ensures exists x :: x in kept && x.id == h.category
    {
      var x :| x in categories && x.id == h.category;
      assert x in kept;
    }
  }

  /** The kept elements keep their order: deleting from a list that has no
      element to delete leaves it as it is, and deleting from a concatenation
      deletes from each part. */
  lemma DeleteHabitInOrder(a: seq<Habit>, b: seq<Habit>, id: Id)
    ensures Filter(a + b, OtherHabit(id)) == Filter(a, OtherHabit(id)) + Filter(b, OtherHabit(id))
    ensures (forall h :: h in a ==> h.id != id) ==> Filter(a, OtherHabit(id)) == a
  {
    FilterAppend(a, b, OtherHabit(id));
    if forall h :: h in a ==> h.id != id {
      FilterKeepsAll(a, OtherHabit(id));
    }
  }

  /** The `state` object: its habit and category arrays. */
  class HabitStore {
    var habits: seq<Habit>
    var categories: seq<Category>

    /** Every completion list is free of duplicates, which every operation
        here keeps true. */
    ghost predicate Valid()
      reads this
    {
      forall i :: 0 <= i < |habits| ==> NoDup(habits[i].completedDates)
    }

    /** What Valid() guarantees for each stored habit: at most seven completions
        in a weekly window and at most the month's length in a month, a daily
        success rate of at most 100%, and a toggle of a date flips whether the
        date is present. */
    lemma ValidHabitBounds(i: int, date: Day)
      requires Valid() && 0 <= i < |habits|
      ensures WeeklyCompletions(habits[i], date) <= 7
      ensures MonthlyCompletions(habits[i], date) <= DaysInMonth(YearOf(date), MonthOf(date))
      ensures habits[i].frequency in {Daily, Other} ==>
        MonthlyStats(Some(habits[i]), date).value.completions <= MonthlyStats(Some(habits[i]), date).value.goal
      ensures date in Toggled(habits[i].completedDates, date) <==> date !in habits[i].completedDates
    {
      var h := habits[i];
      WeeklyAtMostSeven(h, date);
      MonthlyAtMostDays(h, date);
      if h.frequency in {Daily, Other} {
        DailyRateAtMostFull(h, date);
      }
      ToggleFlips(h.completedDates, date);
    }

    /** The initial state, which is also the one loadFromLocalStorage falls back to. */
    constructor ()
      ensures habits == [] && categories == []
      ensures Valid()
    {
      habits := [];
      categories := [];
    }

    /** handleCategorySubmit: the new category is pushed at the end. */
    method AddCategory(id: Id, name: string, icon: string, color: string)
      modifies this
      ensures categories == old(categories) + [Category(id, name, icon, color)]
      ensures habits == old(habits)
      ensures old(Valid()) ==> Valid()
    {
      categories := categories + [Category(id, name, icon, color)];
    }

    /** handleHabitSubmit: the record NewHabit builds is pushed at the end. */
    method AddHabit(id: Id, name: string, description: string, category: Id,
                    frequency: Frequency, goalInput: int, createdAt: string)
      modifies this
      ensures habits == old(habits) + [NewHabit(id, name, description, category, frequency, goalInput, createdAt)]
      ensures categories == old(categories)
      ensures old(Valid()) ==> Valid()
    {
      habits := habits + [NewHabit(id, name, description, category, frequency, goalInput, createdAt)];
    }

    /** toggleHabitCompletion: on the first habit with this id, today's date is
        spliced out of its completion list if present and pushed otherwise; with
        no such habit nothing changes. */
    method ToggleHabitCompletion(habitId: Id, today: Day)
      modifies this
      ensures var k := HabitIndex(old(habits), habitId);
        if k == -1 then habits == old(habits)
        else habits == old(habits)[k := old(habits)[k].(completedDates := Toggled(old(habits)[k].completedDates, today))]
      ensures var k := HabitIndex(old(habits), habitId);
        k != -1 && old(Valid()) ==>
          (today in habits[k].completedDates <==> today !in old(habits)[k].completedDates)
      ensures categories == old(categories)
      ensures old(Valid()) ==> Valid()
    {
      var k := FindHabitIndex(habits, habitId);
      if k == -1 {
        return;
      }
      var dates := habits[k].completedDates;
      var j := IndexOf(dates, today);
      if j == -1 {
        dates := dates + [today];
      } else {
        FoundIsFirst(dates, today, j);
        dates := dates[..j] + dates[j + 1..];
      }
      assert dates == Toggled(habits[k].completedDates, today);
      if Valid() {
        ToggleKeepsNoDup(habits[k].completedDates, today);
        ToggleFlips(habits[k].completedDates, today);
      }
      habits := habits[k := habits[k].(completedDates := dates)];
    }

    /** updateHabit: the first habit with this id gets the form's fields (Edited);
        with no such habit nothing changes. */
    method UpdateHabit(habitId: Id, name: string, description: string, category: Id,
                       frequency: Frequency, goal: int)
      modifies this
      ensures var k := HabitIndex(old(habits), habitId);
        if k == -1 then habits == old(habits)
        else habits == old(habits)[k := Edited(old(habits)[k], name, description, category, frequency, goal)]
      ensures categories == old(categories)
      ensures old(Valid()) ==> Valid()
    {
      var k := FindHabitIndex(habits, habitId);
      if k == -1 {
        return;
      }
      habits := habits[k := Edited(habits[k], name, description, category, frequency, goal)];
    }

    /** deleteHabit, once confirmed: every habit with this id is dropped, the
        others stay in order. */
    method DeleteHabit(habitId: Id)
      modifies this
      ensures habits == Filter(old(habits), OtherHabit(habitId))
      ensures forall h :: h in habits <==> h in old(habits) && h.id != habitId
      ensures categories == old(categories)
      ensures old(Valid()) ==> Valid()
    {
      ghost var before := habits;
      habits := Filter(habits, OtherHabit(habitId));
      forall i | 0 <= i < |habits| && old(Valid())
        ensures NoDup(habits[i].completedDates)
      {
        assert habits[i] in before;
      }
    }

    /** deleteCategory, once confirmed: the habits of the category go, then the
        category itself; references stay resolved. */
    method DeleteCategory(categoryId: Id)
      modifies this
      ensures habits == Filter(old(habits), OutsideCategory(categoryId))
      ensures categories == Filter(old(categories), OtherCategory(categoryId))
      ensures forall h :: h in habits <==> h in old(habits) && h.category != categoryId
      ensures forall x :: x in categories <==> x in old(categories) && x.id != categoryId
      ensures Resolved(old(habits), old(categories)) ==> Resolved(habits, categories)
      ensures old(Valid()) ==> Valid()
    {
      ghost var before := habits;
      if Resolved(habits, categories) {
        CascadeKeepsResolved(habits, categories, categoryId);
      }
      habits := Filter(habits, OutsideCategory(categoryId));
      categories := Filter(categories, OtherCategory(categoryId));
      forall i | 0 <= i < |habits| && old(Valid())
        ensures NoDup(habits[i].completedDates)
      {
        assert habits[i] in before;
      }
    }
  }
}
