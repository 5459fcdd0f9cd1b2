/** src/app/dashboard/page.tsx: `getDetailedHabitStats`, the per-habit numbers of the
    dashboard's detailed view. */
module Dashboard {
  import opened Common
  import opened Utils
  import opened ClientData
  import opened Runs
  import opened Sorting

  /** One square of the last-30-days strip. */
  datatype DayCell = DayCell(day: int, value: int, completed: bool)

  datatype DetailedStats = DetailedStats(
    successfulDays: nat,
    totalTrackedDays: nat,
    missedDays: int,
    successRate: int,
    currentStreak: nat,
    bestStreak: nat,
    last30Days: seq<DayCell>)

  function IsSuccess(e: Entry): bool {
    e.value > 0
  }

  /** `Math.round(successful / total * 100)`, or 0 without entries, in exact arithmetic:
      the integer nearest to the percentage, halves rounded up. */
  function SuccessRate(successful: nat, total: nat): (r: int)
    requires successful <= total
    ensures total == 0 ==> r == 0
    ensures 0 <= r <= 100
    ensures total > 0 ==> (2 * r - 1) * total <= 200 * successful < (2 * r + 1) * total
  {
    if total == 0 then 0
    else
      var r := (200 * successful + total) / (2 * total);
      RoundedQuotient(200 * successful + total, total, r);
      r
  }

  /** The quotient `r` of `n` by `2 * t` satisfies `2 * r * t <= n < 2 * (r + 1) * t`, which
      places `n - t` within `t` of `2 * r * t`; with `n <= 201 * t`, `r` is at most 100. */
  lemma {:induction false} RoundedQuotient(n: nat, t: nat, r: int)
    requires t > 0 && t <= n <= 201 * t && r == n / (2 * t)
    ensures 0 <= r <= 100
    ensures (2 * r - 1) * t <= n - t < (2 * r + 1) * t
  {
    var m := n % (2 * t);
    assert n == r * (2 * t) + m && 0 <= m < 2 * t;
    assert (2 * r - 1) * t == r * (2 * t) - t;
    assert (2 * r + 1) * t == r * (2 * t) + t;
    assert (101 - r) * (2 * t) > 0;
  }

  /** Whether each entry, in order, counts as a success. */
  function Flags(entries: seq<Entry>): (f: seq<bool>)
    ensures |f| == |entries|
    ensures forall i :: 0 <= i < |entries| ==> f[i] == IsSuccess(entries[i])
  {
    if entries == [] then [] else Flags(entries[..|entries| - 1]) + [IsSuccess(entries[|entries| - 1])]
  }

  lemma {:induction false} FlagsSnoc(entries: seq<Entry>, i: nat)
    requires i < |entries|
    ensures Flags(entries[..i + 1]) == Flags(entries[..i]) + [IsSuccess(entries[i])]
  {
    assert entries[..i + 1][..i] == entries[..i];
  }

  /** Counting successes from the front or from the back gives the same number. */
  lemma {:induction false} CountTrueFlags(entries: seq<Entry>)
    ensures CountTrue(Flags(entries)) == Count(entries, IsSuccess)
  {
    if entries != [] {
      var init := entries[..|entries| - 1];
      var last := entries[|entries| - 1];
      CountTrueFlags(init);
      assert entries == init + [last];
      CountAppend(init, [last], IsSuccess);
      assert Flags(entries)[..|entries| - 1] == Flags(init);
    }
  }

  /** The best streak never exceeds the successful days, which never exceed the tracked
      days. */
  lemma {:induction false} BestStreakBounded(entries: seq<Entry>)
    ensures Longest(Flags(entries)) <= Count(entries, IsSuccess) <= |entries|
  {
    LongestAtMostCount(Flags(entries));
    CountTrueFlags(entries);
  }

  /** The number of consecutive days, from `d` backwards and not before `lower`, that pass
      `ok`. */
  function StreakBack(ok: int -> bool, d: int, lower: int): nat
    decreases if d >= lower then d - lower + 1 else 0
  {
    if d >= lower && ok(d) then StreakBack(ok, d - 1, lower) + 1 else 0
  }

  /** Every day the streak covers passes and is not before `lower`. */
  lemma {:induction false} StreakBackCovers(ok: int -> bool, d: int, lower: int, e: int)
    requires d - StreakBack(ok, d, lower) < e <= d
    ensures e >= lower && ok(e)
    decreases if d >= lower then d - lower + 1 else 0
  {
    if e < d {
      StreakBackCovers(ok, d - 1, lower, e);
    }
  }

  /** The streak ends at a day that fails or lies before `lower`. */
  lemma {:induction false} StreakBackStops(ok: int -> bool, d: int, lower: int)
    ensures d - StreakBack(ok, d, lower) < lower || !ok(d - StreakBack(ok, d, lower))
    decreases if d >= lower then d - lower + 1 else 0
  {
    if d >= lower && ok(d) {
      StreakBackStops(ok, d - 1, lower);
      assert d - StreakBack(ok, d, lower) == (d - 1) - StreakBack(ok, d - 1, lower);
    }
  }

  /** The first day the while loop may look at: the earliest entry's day, or today. */
  function StreakLower(entries: seq<Entry>, today: int): int {
    if entries == [] then today else entries[0].day
  }

  /** One step of the loop: `entry && entry.value > 0` for the entry found on day `d`. */
  method CompletedOnDay(entries: seq<Entry>, d: int) returns (b: bool)
    ensures b == SuccessOn(entries)(d)
  {
    var r := EntryOnDate(entries, FormatDate(d));
    b := r.Some? && entries[r.value].value > 0;
  }

  /** The current-streak loop: step back one day at a time from today while the day is not
      before `lower` and has a successful entry. */
  method CurrentStreak(entries: seq<Entry>, today: int, lower: int) returns (currentStreak: nat)
    ensures currentStreak == StreakBack(SuccessOn(entries), today, lower)
  {
    currentStreak := 0;
    var checkDate := today;
    while checkDate >= lower
      invariant checkDate == today - currentStreak
      invariant StreakBack(SuccessOn(entries), today, lower) == currentStreak + StreakBack(SuccessOn(entries), checkDate, lower)
      decreases checkDate - lower + 1
    {
      var completed := CompletedOnDay(entries, checkDate);
      if completed {
        currentStreak := currentStreak + 1;
      } else {
        break;
      }
      checkDate := checkDate - 1;
    }
  }

  /** One turn of the best-streak `forEach`, for an entry that is a `success` or not. */
  method StreakStep(ghost flags: seq<bool>, success: bool, tempStreak: nat, bestStreak: nat)
    returns (tempStreak': nat, bestStreak': nat)
    requires tempStreak == Trailing(flags) && bestStreak == Longest(flags)
    ensures tempStreak' == Trailing(flags + [success]) && bestStreak' == Longest(flags + [success])
  {
    TrailingSnoc(flags, success);
    LongestSnoc(flags, success);
    bestStreak' := bestStreak;
    if success {
      tempStreak' := tempStreak + 1;
      if tempStreak' > bestStreak {
        bestStreak' := tempStreak';
      }
    } else {
      tempStreak' := 0;
    }
  }

  /** The best-streak `forEach`: `tempStreak` counts the successes since the last miss and
      `bestStreak` keeps its largest value. */
  method BestStreak(entries: seq<Entry>) returns (bestStreak: nat)
    ensures bestStreak == Longest(Flags(entries))
  {
    bestStreak := 0;
    var tempStreak: nat := 0;
    var i := 0;
    while i < |entries|
      invariant 0 <= i <= |entries|
      invariant tempStreak == Trailing(Flags(entries[..i]))
      invariant bestStreak == Longest(Flags(entries[..i]))
    {
      FlagsSnoc(entries, i);
      tempStreak, bestStreak := StreakStep(Flags(entries[..i]), entries[i].value > 0, tempStreak, bestStreak);
      i := i + 1;
    }
    assert entries[..i] == entries;
  }

  /** The square for day `d`: `entry?.value || 0` and whether it is positive. */
  function Cell(entries: seq<Entry>, d: int): DayCell {
    DayCell(d, ValueOn(entries, d), ValueOn(entries, d) > 0)
  }

  method CellOn(entries: seq<Entry>, d: int) returns (cell: DayCell)
    ensures cell == CellFor(entries)(d)
  {
    var r := EntryOnDate(entries, FormatDate(d));
    var value := if r.Some? then entries[r.value].value else 0;
    cell := DayCell(d, value, value > 0);
  }

  lemma {:induction false} StripStep<T>(f: int -> T, start: int, n: nat, s: seq<T>, x: T)
    requires s == MapDays(f, start, n) && x == f(start + n)
    ensures s + [x] == MapDays(f, start, n + 1)
  {
  }

  function CellFor(entries: seq<Entry>): int -> DayCell {
    (d: int) => Cell(entries, d)
  }

  /** One turn of the last-30-days loop: the square of the next day is pushed. */
  method PushCell(entries: seq<Entry>, start: int, cells: seq<DayCell>) returns (cells': seq<DayCell>)
    requires cells == MapDays(CellFor(entries), start, |cells|)
    ensures |cells'| == |cells| + 1 && cells' == MapDays(CellFor(entries), start, |cells'|)
  {
    var cell := CellOn(entries, start + |cells|);
    StripStep(CellFor(entries), start, |cells|, cells, cell);
    cells' := cells + [cell];
  }

  /** The last-30-days loop: `i` from 29 down to 0 pushes the square of today − i, so the
      strip holds 30 squares, oldest first and ending today. */
  method Last30Days(entries: seq<Entry>, today: int) returns (last30Days: seq<DayCell>)
    ensures |last30Days| == 30 && last30Days == MapDays(CellFor(entries), today - 29, |last30Days|)
  {
    last30Days := [];
    var i := 29;
    while i >= 0
      invariant -1 <= i <= 29 && |last30Days| == 29 - i
      invariant last30Days == MapDays(CellFor(entries), today - 29, |last30Days|)
    {
      last30Days := PushCell(entries, today - 29, last30Days);
      i := i - 1;
    }
  }

  /** A square is completed exactly when its value is positive, which is exactly when the
      day has a successful entry. */
  lemma {:induction false} CellMeaning(entries: seq<Entry>, d: int)
    ensures Cell(entries, d).day == d
    ensures Cell(entries, d).completed <==> Cell(entries, d).value > 0
    ensures Cell(entries, d).completed <==> CompletedOn(entries, d)
  {
  }

  /** `getDetailedHabitStats`: sorts the habit's entries in place by date, then derives the
      counts, the rate, both streaks and the strip from the sorted entries. */
  method GetDetailedHabitStats(habitEntries: array<Entry>, today: int) returns (stats: DetailedStats)
    modifies habitEntries
    ensures habitEntries[..] == SortBy(old(habitEntries[..]), EntryDay)
    ensures var entries := habitEntries[..];
      && stats.successfulDays == Count(entries, IsSuccess)
      && stats.totalTrackedDays == |entries|
      && stats.missedDays == |entries| - Count(entries, IsSuccess)
      && stats.successRate == SuccessRate(Count(entries, IsSuccess), |entries|)
      && stats.currentStreak == StreakBack(SuccessOn(entries), today, StreakLower(entries, today))
      && stats.bestStreak == Longest(Flags(entries))
      && |stats.last30Days| == 30 && stats.last30Days == MapDays(CellFor(entries), today - 29, |stats.last30Days|)
  {
    SortInPlace(habitEntries, EntryDay);
    var entries := habitEntries[..];
    FilterCount(entries, IsSuccess);
    var successfulDays := |Filter(entries, IsSuccess)|;
    var totalTrackedDays := |entries|;
    var missedDays := totalTrackedDays - successfulDays;
    var successRate := SuccessRate(successfulDays, totalTrackedDays);
    var last30Days := Last30Days(entries, today);
    // the second `sort` meets an already sorted array
    SortBySortedIsIdentity(habitEntries[..], EntryDay);
    SortInPlace(habitEntries, EntryDay);
    var sortedEntries := habitEntries[..];
    var currentStreak := CurrentStreak(sortedEntries, today, StreakLower(sortedEntries, today));
    var bestStreak := BestStreak(sortedEntries);
    stats := DetailedStats(successfulDays, totalTrackedDays, missedDays, successRate,
                           currentStreak, bestStreak, last30Days);
  }
}
