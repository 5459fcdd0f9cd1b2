/** src/components/habit-spreadsheet.tsx: the habit grid with one row per habit and one
    column per day, whose cells cycle through four states when clicked. */
module Spreadsheet {
  import opened Common
  import opened Dates
  import opened Utils
  import opened ClientData

  /** `handleCellClick`'s rotation 0 → 3 → 2 → 1 → 0; any other value goes to 3. */
  function CycleValue(v: int): (n: int)
    ensures 0 <= n <= 3
    ensures 0 <= v <= 3 ==> n == (v + 3) % 4
    ensures !(0 <= v <= 3) ==> n == 3
  {
    if v == 0 then 3
    else if v == 3 then 2
    else if v == 2 then 1
    else if v == 1 then 0
    else 3
  }

  /** Four clicks bring a cell back to where it started. */
  lemma {:induction false} FourClicksRestore(v: int)
    requires 0 <= v <= 3
    ensures CycleValue(CycleValue(CycleValue(CycleValue(v)))) == v
  {
  }

  /** A cell holding a value outside the cycle joins it at 3 and then follows it. */
  lemma {:induction false} StrayValueJoinsCycle(v: int)
    requires !(0 <= v <= 3)
    ensures CycleValue(v) == 3 && CycleValue(CycleValue(v)) == 2
  {
  }

  /** `getEntryValue`: the value of the first entry of the habit whose date text starts with
      `date`; 0 for an unknown habit or when no entry matches. */
  function EntryValue(habits: seq<Habit>, habitId: string, date: string): (v: int)
    ensures FindHabit(habits, habitId).None? ==> v == 0
  {
    match FindHabit(habits, habitId)
    case None => 0
    case Some(h) =>
      match FirstIndex(habits[h].entries, (e: Entry) => Take(IsoString(e.day), 10) == date)
      case None => 0
      case Some(k) => habits[h].entries[k].value
  }

  /** For four-digit years the first-ten-characters test compares formatted dates, so the
      grid shows the value found on that day. */
  lemma {:induction false} EntryValueOnDay(habits: seq<Habit>, habitId: string, d: int)
    requires FindHabit(habits, habitId).Some?
    requires forall k :: 0 <= k < |habits| ==> forall j :: 0 <= j < |habits[k].entries| ==>
               1 <= ToCivil(habits[k].entries[j].day).year <= 9999
    ensures EntryValue(habits, habitId, FormatDate(d))
            == ValueOn(habits[FindHabit(habits, habitId).value].entries, d)
  {
    var h := FindHabit(habits, habitId).value;
    var es := habits[h].entries;
    var p := (e: Entry) => Take(IsoString(e.day), 10) == FormatDate(d);
    var q := (e: Entry) => BeforeFirst(IsoString(e.day), 'T') == FormatDate(d);
    forall j | 0 <= j < |es| ensures p(es[j]) == q(es[j]) {
      IsoFirstTen(es[j].day);
      IsoDatePart(es[j].day);
    }
    SameFirstIndex(es, p, q);
  }

  /** The single `onUpdateEntry(habitId, date, value)` call a click makes. */
  datatype UpdateCall = UpdateCall(habitId: string, date: string, value: int)

  /** `getCellColor`: white, light red, light yellow, light green; white otherwise. */
  function CellColor(v: int): (c: string)
    ensures v == 1 ==> c == "#fecaca"
    ensures v == 2 ==> c == "#fef3c7"
    ensures v == 3 ==> c == "#dcfce7"
    ensures !(1 <= v <= 3) ==> c == "#ffffff"
  {
    if v == 0 then "#ffffff"
    else if v == 1 then "#fecaca"
    else if v == 2 then "#fef3c7"
    else if v == 3 then "#dcfce7"
    else "#ffffff"
  }

  /** `getCellTextColor`: gray, red, dark yellow, dark green; gray otherwise. */
  function CellTextColor(v: int): (c: string)
    ensures v == 1 ==> c == "#dc2626"
    ensures v == 2 ==> c == "#92400e"
    ensures v == 3 ==> c == "#166534"
    ensures !(1 <= v <= 3) ==> c == "#9ca3af"
  {
    if v == 0 then "#9ca3af"
    else if v == 1 then "#dc2626"
    else if v == 2 then "#92400e"
    else if v == 3 then "#166534"
    else "#9ca3af"
  }

  /** The background tells the four cell states apart, and every value outside the cycle
      looks like an empty cell. */
  lemma {:induction false} ColorsTellStatesApart(a: int, b: int)
    requires 0 <= a <= 3 && 0 <= b <= 3 && a != b
    ensures CellColor(a) != CellColor(b) && CellTextColor(a) != CellTextColor(b)
  {
    assert "#ffffff"[2] != "#fecaca"[2] && "#ffffff"[2] != "#fef3c7"[2];
    assert "#ffffff"[1] != "#dcfce7"[1] && "#fecaca"[3] != "#fef3c7"[3];
    assert "#fecaca"[1] != "#dcfce7"[1] && "#fef3c7"[1] != "#dcfce7"[1];
    assert "#9ca3af"[1] != "#dc2626"[1] && "#9ca3af"[2] != "#92400e"[2];
    assert "#9ca3af"[1] != "#166534"[1] && "#dc2626"[1] != "#92400e"[1];
    assert "#dc2626"[1] != "#166534"[1] && "#92400e"[1] != "#166534"[1];
  }

  /** The loop behind `dates`: from `start` to `end` inclusive, one day at a time (the
      ranges it runs on are never empty). */
  method DayTextsBetween(start: int, end: int) returns (dates: seq<string>)
    requires start <= end
    ensures dates == MapDays(FormatDate, start, end - start + 1)
  {
    var datesArray: seq<string> := [];
    var currentDay := start;
    while currentDay <= end
      invariant start <= currentDay <= end + 1
      invariant datesArray == MapDays(FormatDate, start, currentDay - start)
      decreases end - currentDay
    {
      datesArray := datesArray + [FormatDate(currentDay)];
      currentDay := currentDay + 1;
    }
    dates := datesArray;
  }

  /** The grid's navigation state: the day it is centred on and the number of columns. */
  class Grid {
    var currentDate: int
    var dateRange: int

    ghost predicate Valid()
      reads this
    {
      dateRange == 7 || dateRange == 30
    }

    /** The grid opens on today in 7-day mode. */
    constructor(today: int)
      ensures currentDate == today && dateRange == 7 && Valid()
    {
      currentDate := today;
      dateRange := 7;
    }

    /** `getDateRange`: the Sunday-to-Saturday week of `currentDate`, or the 30 days that
        end on `currentDate`. */
    function Range(): (r: DayRange)
      reads this
      ensures r.start <= currentDate <= r.end
      ensures dateRange == 7 ==> r.end == r.start + 6 && Weekday(r.start) == 0
      ensures dateRange != 7 ==> r.end == currentDate && r.start == currentDate - 29
    {
      if dateRange == 7 then DayRange(StartOfWeek(currentDate), EndOfWeek(currentDate))
      else DayRange(currentDate - 29, currentDate)
    }

    /** `dates`: one yyyy-MM-dd text per day of the range, so 7 or 30 consecutive,
        increasing days. */
    method Dates() returns (dates: seq<string>)
      ensures |dates| == Range().end - Range().start + 1
      ensures |dates| == if dateRange == 7 then 7 else 30
      ensures dates == MapDays(FormatDate, Range().start, |dates|)
    {
      var r := Range();
      dates := DayTextsBetween(r.start, r.end);
    }

    /** The 7 / 30 buttons. */
    method SetDateRange(r: int)
      requires r == 7 || r == 30
      modifies this`dateRange
      ensures dateRange == r && Valid()
    {
      dateRange := r;
    }

    /** `navigatePrevious`: one week back, or exactly 30 days back. */
    method NavigatePrevious()
      requires Valid()
      modifies this`currentDate
      ensures Valid()
      ensures currentDate == old(currentDate) - dateRange
    {
      if dateRange == 7 {
        currentDate := currentDate - 7;
      } else {
        currentDate := currentDate - 30;
      }
    }

    /** `navigateNext`: one week forward, or exactly 30 days forward. */
    method NavigateNext()
      requires Valid()
      modifies this`currentDate
      ensures Valid()
      ensures currentDate == old(currentDate) + dateRange
    {
      if dateRange == 7 {
        currentDate := currentDate + 7;
      } else {
        currentDate := currentDate + 30;
      }
    }

    /** `handleCellClick`: reads the cell and makes one update call for the same habit and
        date with the next value of the cycle; the grid itself does not change. */
    method HandleCellClick(habits: seq<Habit>, habitId: string, date: string)
      returns (call: UpdateCall)
      requires Valid()
      ensures Valid()
      ensures call.habitId == habitId && call.date == date
      ensures call.value == CycleValue(EntryValue(habits, habitId, date))
    {
      var currentValue := EntryValue(habits, habitId, date);
      var newValue: int;
      if currentValue == 0 {
        newValue := 3;
      } else if currentValue == 3 {
        newValue := 2;
      } else if currentValue == 2 {
        newValue := 1;
      } else if currentValue == 1 {
        newValue := 0;
      } else {
        newValue := 3;
      }
      call := UpdateCall(habitId, date, newValue);
    }
  }

  /** Going back and then forward shows the same columns again. */
  method NavigateRoundTrip(g: Grid)
    requires g.Valid()
    modifies g
    ensures g.Valid()
    ensures g.currentDate == old(g.currentDate) && g.dateRange == old(g.dateRange)
  {
    g.NavigatePrevious();
    g.NavigateNext();
  }
}
