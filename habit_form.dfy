/** src/components/unified-habit-form.tsx: the create/edit habit form, its submit checks,
    the day toggles and quick selects, and the target box. */
module HabitForm {
  import opened Common
  import opened Utils
  import opened Dates

  datatype ScheduleType = Weekly | Monthly | Custom
  datatype MonthlyType = ByDate | ByWeekday
  datatype CustomUnit = Days | Weeks | Months

  /** The form's state object; optional texts are "" when empty. */
  datatype FormData = FormData(
    name: string,
    description: string,
    color: string,
    target: int,
    unit: string,
    startDate: string,
    endDate: string,
    hasEndDate: bool,
    scheduleType: ScheduleType,
    selectedDays: seq<string>,
    monthlyType: MonthlyType,
    monthlyDate: int,
    monthlyWeekday: string,
    monthlyWeek: string,
    customInterval: int,
    customUnit: CustomUnit)

  /** The first of the ten colour swatches (blue). */
  const DefaultColor := "#3B82F6"

  /** A blank form starting today (`toISOString().split('T')[0]`, read in UTC); the
      population of an edited habit resets the schedule to these same values. */
  function BlankForm(name: string, description: string, color: string, target: int, unit: string, today: int): FormData {
    FormData(name, description, color, target, unit, FormatDate(today), "", false, Weekly, [],
             ByDate, 1, "monday", "first", 1, Days)
  }

  const EndDateMessage := "End date must be after start date"
  const WeeklyMessage := "Please select at least one day of the week for weekly schedule"
  const MonthlyMessage := "Please select a valid date (1-31) for monthly schedule"
  const CustomMessage := "Please enter a valid interval for custom schedule"

  /** One submit check: whether it fails, and the alert it shows then. */
  datatype Check = Check(fails: bool, message: string)

  /** The checks in the order `handleSubmit` runs them; the end date is compared as text. */
  function Checks(f: FormData): seq<Check> {
    [ Check(f.hasEndDate && f.endDate != "" && LexAtMost(f.endDate, f.startDate), EndDateMessage),
      Check(f.scheduleType == Weekly && |f.selectedDays| == 0, WeeklyMessage),
      Check(f.scheduleType == Monthly && f.monthlyType == ByDate && (f.monthlyDate < 1 || f.monthlyDate > 31), MonthlyMessage),
      Check(f.scheduleType == Custom && f.customInterval < 1, CustomMessage) ]
  }

  function Failing(c: Check): bool {
    c.fails
  }

  /** The alert of the first failing check, or `None` when the form is submitted. */
  function SubmitError(f: FormData): Option<string> {
    match FirstIndex(Checks(f), Failing)
    case None => None
    case Some(i) => Some(Checks(f)[i].message)
  }

  /** A submission is accepted exactly when the end date, when set, comes after the start
      date as text, a weekly schedule has a day, a monthly-by-date schedule has a day of
      the month in 1..31, and a custom schedule has an interval of at least 1. */
  lemma {:induction false} SubmitAcceptedIff(f: FormData)
    ensures SubmitError(f).None? <==>
              !(f.hasEndDate && f.endDate != "" && LexAtMost(f.endDate, f.startDate))
              && !(f.scheduleType == Weekly && f.selectedDays == [])
              && !(f.scheduleType == Monthly && f.monthlyType == ByDate && !(1 <= f.monthlyDate <= 31))
              && !(f.scheduleType == Custom && f.customInterval < 1)
  {
    SubmitErrorUnrolled(f);
  }

  /** The first failing check, spelled out check by check. */
  lemma {:induction false} SubmitErrorUnrolled(f: FormData)
    ensures SubmitError(f) ==
              if Checks(f)[0].fails then Some(EndDateMessage)
              else if Checks(f)[1].fails then Some(WeeklyMessage)
              else if Checks(f)[2].fails then Some(MonthlyMessage)
              else if Checks(f)[3].fails then Some(CustomMessage)
              else None
  {
    var cs := Checks(f);
    assert cs[1..][1..][1..][1..] == [];
    assert FirstIndex(cs[1..][1..][1..][1..], Failing) == None;
  }

  /** A bad end date is reported whatever the schedule is. */
  lemma {:induction false} EndDateCheckComesFirst(f: FormData)
    requires f.hasEndDate && f.endDate != "" && LexAtMost(f.endDate, f.startDate)
    ensures SubmitError(f) == Some(EndDateMessage)
  {
  }

  /** When both dates come from `formatDate` (years 1 to 9999), the text comparison is the
      day comparison: the end-date alert shows exactly when the end day is not after the
      start day. */
  lemma {:induction false} EndDateCheckIsDayOrder(f: FormData, start: int, end: int)
    requires f.hasEndDate && f.startDate == FormatDate(start) && f.endDate == FormatDate(end)
    requires 1 <= ToCivil(start).year <= 9999 && 1 <= ToCivil(end).year <= 9999
    ensures SubmitError(f) == Some(EndDateMessage) <==> end <= start
  {
    FormatDateShape(end);
    FormatDateOrder(start, end);
    SubmitErrorUnrolled(f);
  }

  /** `handleDayToggle`: a selected day is removed (every copy of it), any other day is
      added at the end. */
  function ToggleDay(days: seq<string>, day: string): (r: seq<string>)
    ensures day in r <==> day !in days
    ensures forall d :: d != day ==> (d in r <==> d in days)
  {
    if day in days then Filter(days, NotDay(day)) else days + [day]
  }

  function NotDay(day: string): string -> bool {
    (d: string) => d != day
  }

  predicate NoDuplicates(days: seq<string>) {
    forall i, j :: 0 <= i < j < |days| ==> days[i] != days[j]
  }

  /** Toggling a day twice restores a list that lacked it, and on a list with no repeats
      only moves the day to the end. */
  lemma {:induction false} ToggleTwice(days: seq<string>, day: string)
    ensures day !in days ==> ToggleDay(ToggleDay(days, day), day) == days
    ensures day in days ==> ToggleDay(ToggleDay(days, day), day) == Filter(days, NotDay(day)) + [day]
    ensures NoDuplicates(days) ==> multiset(ToggleDay(ToggleDay(days, day), day)) == multiset(days)
  {
    if day !in days {
      FilterAppend(days, [day], NotDay(day));
      FilterAllPass(days, NotDay(day));
    } else {
      var f := Filter(days, NotDay(day));
      assert day !in f;
      if NoDuplicates(days) {
        FilterRemovesOnce(days, day);
      }
    }
  }

  /** Removing the one copy of a day from a list with no repeats takes exactly that day out. */
  lemma {:induction false} FilterRemovesOnce(days: seq<string>, day: string)
    requires NoDuplicates(days) && day in days
    ensures multiset(Filter(days, NotDay(day))) + multiset{day} == multiset(days)
  {
    assert days == [days[0]] + days[1..];
    if days[0] == day {
      assert day !in days[1..];
      FilterAllPass(days[1..], NotDay(day));
    } else {
      FilterRemovesOnce(days[1..], day);
    }
  }

  const DayNames: seq<string> := ["sunday", "monday", "tuesday", "wednesday", "thursday", "friday", "saturday"]

  function UpperChar(c: char): char {
    if 'a' <= c <= 'z' then (c as int - 32) as char else c
  }

  /** `getDayAbbreviation`: a day name becomes its first three letters with the first one
      capitalised; any other text comes back unchanged (text naming a property of
      `Object.prototype` is not modelled). */
  function DayAbbreviation(day: string): (r: string)
    ensures day !in DayNames ==> r == day
    ensures day in DayNames ==> |r| == 3 && r[0] == UpperChar(day[0]) && r[1..] == day[1..3]
  {
    match day
    case "sunday" => "Sun"
    case "monday" => "Mon"
    case "tuesday" => "Tue"
    case "wednesday" => "Wed"
    case "thursday" => "Thu"
    case "friday" => "Fri"
    case "saturday" => "Sat"
    case _ => day
  }

  /** The four quick-select buttons under the day toggles. */
  datatype QuickSelect = Weekdays | Weekends | EveryDay | ClearDays

  function QuickDays(choice: QuickSelect): seq<string> {
    match choice
    case Weekdays => ["monday", "tuesday", "wednesday", "thursday", "friday"]
    case Weekends => ["saturday", "sunday"]
    case EveryDay => ["monday", "tuesday", "wednesday", "thursday", "friday", "saturday", "sunday"]
    case ClearDays => []
  }

  /** Every quick selection lists day names without repeats; weekdays and weekend days
      split the week, and "every day" selects all seven. */
  lemma {:induction false} QuickDaysAreDays(choice: QuickSelect)
    ensures NoDuplicates(QuickDays(choice))
    ensures forall d :: d in QuickDays(choice) ==> d in DayNames
    ensures choice == EveryDay ==> |QuickDays(choice)| == 7 && forall d :: d in DayNames ==> d in QuickDays(choice)
    ensures forall d :: d in DayNames ==> (d in QuickDays(Weekdays) <==> d !in QuickDays(Weekends))
  {
  }

  /** The target box accepts the text when `parseInt` reads a number of at least 1. */
  predicate ValidTarget(text: string) {
    text != "" && ParseInt(text).Some? && ParseInt(text).value >= 1
  }

  /** The form component: the form state and the raw text of the target box. */
  class HabitForm {
    var formData: FormData
    var targetInputValue: string

    /** Whenever the target box holds a valid number, that number is the target. */
    ghost predicate Synced()
      reads this
    {
      ValidTarget(targetInputValue) ==> formData.target == ParseInt(targetInputValue).value
    }

    /** A new habit: empty texts, the first colour, target 1, today as start date, weekly
        with no days, and an empty target box. */
    constructor(today: int)
      ensures formData == BlankForm("", "", DefaultColor, 1, "", today)
      ensures targetInputValue == "" && Synced()
    {
      formData := BlankForm("", "", DefaultColor, 1, "", today);
      targetInputValue := "";
    }

    /** The effect that fills the form from an edited habit: missing texts become "", a
        missing colour the first colour, and the box shows the target's text. */
    method LoadHabit(name: string, description: string, color: string, target: int, unit: string, today: int)
      modifies this
      ensures formData == BlankForm(name, description, if color == "" then DefaultColor else color, target, unit, today)
      ensures targetInputValue == IntToString(target)
      ensures Synced()
    {
      formData := BlankForm(name, description, if color == "" then DefaultColor else color, target, unit, today);
      targetInputValue := IntToString(target);
      ParseIntOfIntToString(target);
    }

    /** `handleSubmit`: the checks in order, the first failure alerts and stops; otherwise
        `onSubmit` receives the form state as it is. */
    method HandleSubmit() returns (submitted: Option<FormData>, alert: Option<string>)
      ensures alert == SubmitError(formData)
      ensures submitted.Some? <==> alert.None?
      ensures submitted.Some? ==> submitted.value == formData
    {
      var f := formData;
      SubmitErrorUnrolled(f);
      submitted, alert := None, None;
      if f.hasEndDate && f.endDate != "" && LexAtMost(f.endDate, f.startDate) {
        alert := Some(EndDateMessage);
      } else if f.scheduleType == Weekly && |f.selectedDays| == 0 {
        alert := Some(WeeklyMessage);
      } else if f.scheduleType == Monthly && f.monthlyType == ByDate && (f.monthlyDate < 1 || f.monthlyDate > 31) {
        alert := Some(MonthlyMessage);
      } else if f.scheduleType == Custom && f.customInterval < 1 {
        alert := Some(CustomMessage);
      } else {
        submitted := Some(f);
      }
    }

    method HandleDayToggle(day: string)
      modifies this`formData
      ensures formData == old(formData).(selectedDays := ToggleDay(old(formData.selectedDays), day))
    {
      formData := formData.(selectedDays := ToggleDay(formData.selectedDays, day));
    }

    method ChooseQuickSelect(choice: QuickSelect)
      modifies this`formData
      ensures formData == old(formData).(selectedDays := QuickDays(choice))
    {
      formData := formData.(selectedDays := QuickDays(choice));
    }

    /** The "Set end date" checkbox; unchecking it clears the end date. */
    method SetHasEndDate(checked: bool)
      modifies this`formData
      ensures formData == old(formData).(hasEndDate := checked, endDate := if checked then old(formData.endDate) else "")
    {
      formData := formData.(hasEndDate := checked, endDate := if checked then formData.endDate else "");
    }

    /** The target box's `onChange`: the text is kept as typed, and a positive number read
        from it becomes the target; empty or unreadable text leaves the target alone. */
    method OnTargetChange(value: string)
      modifies this
      ensures targetInputValue == value
      ensures ValidTarget(value) ==> formData == old(formData).(target := ParseInt(value).value)
      ensures !ValidTarget(value) ==> formData == old(formData)
      ensures Synced()
    {
      targetInputValue := value;
      if value == "" {
        return;
      }
      var numValue := ParseInt(value);
      if numValue.Some? && numValue.value > 0 {
        formData := formData.(target := numValue.value);
      }
    }

    /** The target box's `onBlur`: text that is empty, unreadable or below 1 is cleared
        and the target reset to 1; afterwards the box is empty or valid. */
    method OnTargetBlur()
      modifies this
      ensures !ValidTarget(old(targetInputValue)) ==> targetInputValue == "" && formData == old(formData).(target := 1)
      ensures ValidTarget(old(targetInputValue)) ==> targetInputValue == old(targetInputValue) && formData == old(formData)
      ensures targetInputValue == "" || ValidTarget(targetInputValue)
      ensures old(Synced()) ==> Synced()
    {
      var value := targetInputValue;
      if value == "" || ParseInt(value).None? || ParseInt(value).value < 1 {
        targetInputValue := "";
        formData := formData.(target := 1);
      }
    }
  }

  /** Typing into the box and leaving it: a valid number stays and is the target, anything
      else clears the box and sets the target to 1. */
  method TypeThenLeave(form: HabitForm, value: string)
    modifies form
    ensures ValidTarget(value) ==> form.targetInputValue == value && form.formData.target == ParseInt(value).value
    ensures !ValidTarget(value) ==> form.targetInputValue == "" && form.formData.target == 1
  {
    form.OnTargetChange(value);
    form.OnTargetBlur();
  }
}
