/** src/components/habit-calendar.tsx: the read-only week / month calendar of habits, its
    per-habit completion statistics and the list of custom activities shown on its days. */
module Calendar {
  import opened Common
  import opened Dates
  import opened Utils
  import opened ClientData

  datatype ViewMode = Week | Month

  /** `getDateRange`: the Sunday-to-Saturday week of `current`, or the whole weeks that
      cover the month of `current`. */
  function CalendarRange(view: ViewMode, current: int): (r: DayRange)
    ensures r.start <= current <= r.end
    ensures Weekday(r.start) == 0 && Weekday(r.end) == 6
    ensures (r.end - r.start + 1) % 7 == 0
    ensures view == Week ==> r.start == StartOfWeek(current) && r.end == r.start + 6
    ensures view == Month ==> r.start <= StartOfMonth(current) < r.start + 7
                              && r.end - 7 < EndOfMonth(current) <= r.end
  {
    match view
    case Week =>
      WeekSpanIsWholeWeeks(current, current);
      DayRange(StartOfWeek(current), EndOfWeek(current))
    case Month =>
      var monthStart := StartOfMonth(current);
      var monthEnd := EndOfMonth(monthStart);
      assert monthEnd == EndOfMonth(current) by { MonthEndOfMonthStart(current); }
      WeekSpanIsWholeWeeks(monthStart, monthEnd);
      DayRange(StartOfWeek(monthStart), EndOfWeek(monthEnd))
  }

  /** `endOfMonth(startOfMonth(d))` is `endOfMonth(d)`: both days lie in one month. */
  lemma {:induction false} MonthEndOfMonthStart(d: int)
    ensures EndOfMonth(StartOfMonth(d)) == EndOfMonth(d)
  {
    FirstOfMonth(d);
  }

  /** The first of the month of `d` has the same year and month as `d` and is day 1. */
  lemma {:induction false} FirstOfMonth(d: int)
    ensures ToCivil(StartOfMonth(d)) == CivilDate(ToCivil(d).year, ToCivil(d).month, 1)
  {
    var (y, ord) := YearOf(1970, d);
    var leap := IsLeapYear(y);
    var md := MonthOf(leap, ord);
    YearOfBack(1970, d, md.day - 1);
    MonthOfBack(leap, ord, ord - (md.day - 1));
  }

  /** Stepping back within a year does not change the year found. */
  lemma {:induction false} YearOfBack(y: int, offset: int, k: nat)
    requires k <= YearOf(y, offset).1
    ensures YearOf(y, offset - k) == (YearOf(y, offset).0, YearOf(y, offset).1 - k)
    decreases if offset < 0 then 366 - offset else offset
  {
    if offset < 0 {
      YearOfBack(y - 1, offset + DaysInYear(y - 1), k);
    } else if offset < DaysInYear(y) {
    } else {
      YearOfBack(y + 1, offset - DaysInYear(y), k);
      if offset - k < DaysInYear(y) {
        assert false;
      }
    }
  }

  /** A day at or after the first of month `m` and before the first of the next lies in `m`. */
  lemma {:induction false} MonthNumberWithin(leap: bool, ord: nat, m: int)
    requires 1 <= m <= 12 && DaysBefore(leap, m) <= ord < DaysBefore(leap, m + 1)
    ensures MonthNumber(leap, ord) == m
  {
  }

  /** Stepping back within a month does not change the month found. */
  lemma {:induction false} MonthOfBack(leap: bool, ord: nat, j: nat)
    requires ord < if leap then 366 else 365
    requires j <= ord && ord - j < MonthOf(leap, ord).day
    ensures MonthOf(leap, j) == MonthDay(MonthOf(leap, ord).month, MonthOf(leap, ord).day - (ord - j))
  {
    MonthNumberBounds(leap, ord);
    MonthNumberWithin(leap, j, MonthOf(leap, ord).month);
  }

  /** `getEntryValue`: the value of the first entry of the habit on day `d`; 0 for an
      unknown habit or a day without an entry. */
  function DayValue(habits: seq<Habit>, habitId: string, d: int): (v: int)
    ensures FindHabit(habits, habitId).None? ==> v == 0
  {
    match FindHabit(habits, habitId)
    case None => 0
    case Some(h) =>
      match FirstIndex(habits[h].entries, (e: Entry) => FormatDate(e.day) == FormatDate(d))
      case None => 0
      case Some(k) => habits[h].entries[k].value
  }

  /** Comparing formatted dates finds the same entry as comparing the date part of the
      entry's ISO text, so the calendar and the other pages agree on a day's value. */
  lemma {:induction false} DayValueIsValueOn(habits: seq<Habit>, habitId: string, d: int)
    requires FindHabit(habits, habitId).Some?
    ensures DayValue(habits, habitId, d) == ValueOn(habits[FindHabit(habits, habitId).value].entries, d)
  {
    var es := habits[FindHabit(habits, habitId).value].entries;
    var p := (e: Entry) => FormatDate(e.day) == FormatDate(d);
    var q := (e: Entry) => BeforeFirst(IsoString(e.day), 'T') == FormatDate(d);
    forall j | 0 <= j < |es| ensures p(es[j]) == q(es[j]) {
      IsoDatePart(es[j].day);
    }
    SameFirstIndex(es, p, q);
  }

  /** The days `getHabitStats` counts towards `total`: every day in week view, only the
      days of the current month in month view. */
  predicate InStats(view: ViewMode, current: int, d: int) {
    view == Week || SameMonth(d, current)
  }

  /** `getEntryValue(habitId, ·)`: the value of the habit on each day. */
  function DayValues(habits: seq<Habit>, habitId: string): int -> int {
    (d: int) => DayValue(habits, habitId, d)
  }

  /** The two tests `getHabitStats` applies to a day: whether it counts, and whether it is
      completed, given the habit's value on each day. */
  datatype DayTest =
    | CountsTest(view: ViewMode, current: int)
    | CompletedTest(view: ViewMode, current: int, today: int, value: int -> int)

  predicate Holds(t: DayTest, d: int) {
    match t
    case CountsTest(view, current) => InStats(view, current, d)
    case CompletedTest(view, current, today, value) => InStats(view, current, d) && d <= today && value(d) > 0
  }

  /** The number of days among `start .. start + count - 1` that pass `t`. */
  function CountDays(t: DayTest, start: int, count: nat): (n: nat)
    ensures n <= count
  {
    if count == 0 then 0
    else CountDays(t, start, count - 1) + (if Holds(t, start + count - 1) then 1 else 0)
  }

  /** A weaker test counts at least as many days. */
  lemma {:induction false} CountDaysMono(p: DayTest, q: DayTest, start: int, count: nat)
    requires forall d :: start <= d < start + count ==> Holds(p, d) ==> Holds(q, d)
    ensures CountDays(p, start, count) <= CountDays(q, start, count)
  {
    if count > 0 {
      CountDaysMono(p, q, start, count - 1);
    }
  }

  /** A test every day passes counts every day. */
  lemma {:induction false} CountDaysAll(p: DayTest, start: int, count: nat)
    requires forall d :: start <= d < start + count ==> Holds(p, d)
    ensures CountDays(p, start, count) == count
  {
    if count > 0 {
      CountDaysAll(p, start, count - 1);
    }
  }

  /** The `getHabitStats` loop: every day from `start` to `end`, adding one to `total` for a
      counted day and, among those, one to `completed` for a completed one. Every completed day
      is a counted one. */
  method StatsLoop(counted: DayTest, done: DayTest, start: int, end: int)
    returns (completed: nat, total: nat)
    requires start <= end
    requires forall d :: Holds(done, d) ==> Holds(counted, d)
    ensures total == CountDays(counted, start, end - start + 1)
    ensures completed == CountDays(done, start, end - start + 1)
  {
    completed, total := 0, 0;
    var currentDay := start;
    while currentDay <= end
      invariant start <= currentDay <= end + 1
      invariant total == CountDays(counted, start, currentDay - start)
      invariant completed == CountDays(done, start, currentDay - start)
      decreases end - currentDay
    {
      if Holds(counted, currentDay) {
        total := total + 1;
        if Holds(done, currentDay) {
          completed := completed + 1;
        }
      }
      currentDay := currentDay + 1;
    }
  }

  /** A completed day is a counted day. */
  lemma {:induction false} DoneIsCounted(view: ViewMode, current: int, today: int, value: int -> int)
    ensures forall d :: Holds(CompletedTest(view, current, today, value), d) ==> Holds(CountsTest(view, current), d)
  {
  }

  /** A custom activity as the calendar holds it. */
  datatype Activity = Activity(id: string, text: string, color: string, date: string)

  /** The cell being edited: its date, and the activity when an existing one is edited. */
  datatype Editing = Editing(date: string, activity: Option<Activity>)

  /** The request `handleActivitySubmit` sends. */
  datatype ActivityRequest = UpdateActivity(id: string, text: string) | CreateActivity(date: string, text: string)

  /** The update after a successful PUT: every item with id `id` becomes `updated`. */
  function ReplaceById(items: seq<Activity>, id: string, updated: Activity): (r: seq<Activity>)
    ensures |r| == |items|
    ensures forall i :: 0 <= i < |items| ==> r[i] == if items[i].id == id then updated else items[i]
  {
    if items == [] then []
    else [if items[0].id == id then updated else items[0]] + ReplaceById(items[1..], id, updated)
  }

  /** The update after a successful DELETE: the items whose id is not `id`, in order. */
  function RemoveById(items: seq<Activity>, id: string): (r: seq<Activity>)
    ensures |r| <= |items|
    ensures forall i :: 0 <= i < |r| ==> r[i].id != id && r[i] in items
    ensures forall i :: 0 <= i < |items| && items[i].id != id ==> items[i] in r
  {
    Filter(items, (a: Activity) => a.id != id)
  }

  /** Removing an id drops exactly as many items as carry it. */
  lemma {:induction false} RemoveByIdCount(items: seq<Activity>, id: string)
    ensures |RemoveById(items, id)| + Count(items, (a: Activity) => a.id == id) == |items|
  {
    var keep := (a: Activity) => a.id != id;
    var drop := (a: Activity) => a.id == id;
    FilterCount(items, keep);
    CountComplement(items, keep, drop);
  }

  lemma {:induction false} CountComplement<T>(s: seq<T>, p: T -> bool, q: T -> bool)
    requires forall i :: 0 <= i < |s| ==> p(s[i]) != q(s[i])
    ensures Count(s, p) + Count(s, q) == |s|
  {
    if s != [] {
      CountComplement(s[1..], p, q);
    }
  }

  /** Deleting an activity that was just created with a fresh id gives back the old list. */
  lemma {:induction false} RemoveCreated(items: seq<Activity>, a: Activity)
    requires forall i :: 0 <= i < |items| ==> items[i].id != a.id
    ensures RemoveById(items + [a], a.id) == items
  {
    if items == [] {
      assert [a][1..] == [];
    } else {
      assert (items + [a])[1..] == items[1..] + [a];
      RemoveCreated(items[1..], a);
    }
  }

  /** The calendar's state. */
  class HabitCalendar {
    var currentDate: int
    var viewMode: ViewMode
    var selectedHabit: Option<string>
    var customActivities: seq<Activity>
    var editingActivity: Option<Editing>
    var activityText: string

    /** The calendar opens on today in week view, with nothing selected or edited. */
    constructor(today: int)
      ensures currentDate == today && viewMode == Week && selectedHabit == None
      ensures customActivities == [] && editingActivity == None && activityText == ""
    {
      currentDate := today;
      viewMode := Week;
      selectedHabit := None;
      customActivities := [];
      editingActivity := None;
      activityText := "";
    }

    /** `getHabitStats`: walks the displayed days from start to end, counting the days that
        count towards the statistics and, among them, those completed by today. */
    method HabitStats(habits: seq<Habit>, habitId: string, today: int)
      returns (completed: nat, total: nat)
      ensures FindHabit(habits, habitId).None? ==> completed == 0 && total == 0
      ensures FindHabit(habits, habitId).Some? ==>
                var r := CalendarRange(viewMode, currentDate);
                total == CountDays(CountsTest(viewMode, currentDate), r.start, r.end - r.start + 1)
                && completed == CountDays(CompletedTest(viewMode, currentDate, today, DayValues(habits, habitId)),
                                          r.start, r.end - r.start + 1)
      ensures completed <= total
      ensures FindHabit(habits, habitId).Some? && viewMode == Week ==> total == 7
    {
      if FindHabit(habits, habitId).None? {
        return 0, 0;
      }
      var r := CalendarRange(viewMode, currentDate);
      var counted := CountsTest(viewMode, currentDate);
      var done := CompletedTest(viewMode, currentDate, today, DayValues(habits, habitId));
      DoneIsCounted(viewMode, currentDate, today, DayValues(habits, habitId));
      completed, total := StatsLoop(counted, done, r.start, r.end);
      CountDaysMono(done, counted, r.start, r.end - r.start + 1);
      if viewMode == Week {
        CountDaysAll(counted, r.start, r.end - r.start + 1);
      }
    }

    /** Appending the record a successful POST returned. */
    method AddActivity(created: Activity)
      modifies this`customActivities
      ensures customActivities == old(customActivities) + [created]
    {
      customActivities := customActivities + [created];
    }

    /** Replacing every item with that id by the record a successful PUT returned. */
    method UpdateActivityInList(id: string, updated: Activity)
      modifies this`customActivities
      ensures customActivities == ReplaceById(old(customActivities), id, updated)
    {
      customActivities := ReplaceById(customActivities, id, updated);
    }

    /** Dropping the items with that id after a successful DELETE. */
    method DeleteActivityFromList(id: string)
      modifies this`customActivities
      ensures customActivities == RemoveById(old(customActivities), id)
    {
      customActivities := RemoveById(customActivities, id);
    }

    /** `handleActivitySubmit`: nothing happens when the trimmed text is empty or no cell is
        being edited; otherwise the trimmed text goes out as an update of the edited
        activity or as a new activity on the edited date, and the editor is cleared. */
    method HandleActivitySubmit() returns (request: Option<ActivityRequest>)
      modifies this`editingActivity, this`activityText
      ensures Trim(old(activityText)) == "" || old(editingActivity).None? ==>
                request == None && editingActivity == old(editingActivity)
                && activityText == old(activityText)
      ensures Trim(old(activityText)) != "" && old(editingActivity).Some? ==>
                editingActivity == None && activityText == ""
                && request == Some(
                  match old(editingActivity).value.activity
                  case Some(a) => UpdateActivity(a.id, Trim(old(activityText)))
                  case None => CreateActivity(old(editingActivity).value.date, Trim(old(activityText))))
    {
      if Trim(activityText) == "" || editingActivity.None? {
        return None;
      }
      match editingActivity.value.activity {
        case Some(a) =>
          request := Some(UpdateActivity(a.id, Trim(activityText)));
        case None =>
          request := Some(CreateActivity(editingActivity.value.date, Trim(activityText)));
      }
      editingActivity := None;
      activityText := "";
    }
  }

  /** The text sent by a submit is never empty and has no surrounding white space. */
  lemma {:induction false} SubmittedTextIsTrimmed(text: string)
    requires Trim(text) != ""
    ensures Trim(Trim(text)) == Trim(text)
    ensures !IsSpace(Trim(text)[0]) && !IsSpace(Trim(text)[|Trim(text)| - 1])
  {
    TrimIdempotent(text);
  }

  /** The habits drawn on each day: only the selected habit when one is selected,
      otherwise the first 8 (week view) or 3 (month view) habits. */
  function VisibleHabits(habits: seq<Habit>, selected: Option<string>, view: ViewMode): (r: seq<Habit>)
    ensures |r| <= |habits|
    ensures Truthy(selected) ==> forall i :: 0 <= i < |r| ==> r[i].id == selected.value
    ensures Truthy(selected) ==> forall i :: 0 <= i < |habits| && habits[i].id == selected.value ==> habits[i] in r
    ensures !Truthy(selected) ==> r == habits[..|r|]
    ensures !Truthy(selected) ==> |r| == if view == Week then Min(|habits|, 8) else Min(|habits|, 3)
  {
    if Truthy(selected) then Filter(habits, (h: Habit) => h.id == selected.value)
    else habits[..Min(|habits|, if view == Week then 8 else 3)]
  }

  function Min(a: int, b: int): int {
    if a <= b then a else b
  }
}
