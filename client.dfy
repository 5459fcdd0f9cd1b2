/** The habits and entries the pages receive from GET /api/habits, as the client sees
    them. An entry's `date` arrives as the ISO text of a midnight-UTC instant; the model
    keeps its day number and derives the text with `IsoString`. */
module ClientData {
  import opened Common
  import opened Utils

  datatype Entry = Entry(day: int, value: int)

  datatype Habit = Habit(id: string, entries: seq<Entry>)

  /** The sort key of the pages' date comparators (`new Date(e.date).getTime()`). */
  function EntryDay(e: Entry): int {
    e.day
  }

  /** `habits.find(h => h.id === habitId)`. */
  function FindHabit(habits: seq<Habit>, habitId: string): (r: Option<nat>)
    ensures r.Some? ==> r.value < |habits| && habits[r.value].id == habitId
                        && forall k :: 0 <= k < r.value ==> habits[k].id != habitId
    ensures r.None? ==> forall k :: 0 <= k < |habits| ==> habits[k].id != habitId
  {
    FirstIndex(habits, (h: Habit) => h.id == habitId)
  }

  /** The first entry of `entries` whose `date.split('T')[0]` is `dateStr`. */
  function EntryOnDate(entries: seq<Entry>, dateStr: string): (r: Option<nat>)
    ensures r.Some? ==> r.value < |entries| && FormatDate(entries[r.value].day) == dateStr
                        && forall k :: 0 <= k < r.value ==> FormatDate(entries[k].day) != dateStr
    ensures r.None? ==> forall k :: 0 <= k < |entries| ==> FormatDate(entries[k].day) != dateStr
  {
    var r := FirstIndex(entries, (e: Entry) => BeforeFirst(IsoString(e.day), 'T') == dateStr);
    forall k | 0 <= k < |entries| ensures BeforeFirst(IsoString(entries[k].day), 'T') == FormatDate(entries[k].day) {
      IsoDatePart(entries[k].day);
    }
    r
  }

  /** `entry && entry.value > 0` for the entry found on day `d`. */
  predicate CompletedOn(entries: seq<Entry>, d: int) {
    var r := EntryOnDate(entries, FormatDate(d));
    r.Some? && entries[r.value].value > 0
  }

  /** The days with a successful entry. */
  function SuccessOn(entries: seq<Entry>): int -> bool {
    (d: int) => CompletedOn(entries, d)
  }

  /** `entry?.value || 0` for the entry found on day `d`. */
  function ValueOn(entries: seq<Entry>, d: int): (v: int)
    ensures CompletedOn(entries, d) <==> v > 0
  {
    var r := EntryOnDate(entries, FormatDate(d));
    if r.Some? then entries[r.value].value else 0
  }
}
