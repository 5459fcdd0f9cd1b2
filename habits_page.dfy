/** src/app/habits/page.tsx: `getStreakInfo`, the streak numbers of a habit card, and the
    card's last-7-days strip. */
module HabitsPage {
  import opened ClientData
  import opened Runs
  import opened Sorting

  /** The days the streak loop inspects, today first: position `i` tells whether day
      `today - i` passes `ok`. */
  function Window(ok: int -> bool, today: int, n: nat): (w: seq<bool>)
    ensures |w| == n
  {
    seq(n, i => ok(today - i))
  }

  /** `currentStreak` after the loop: every completed day of the window when today is
      completed, otherwise 0. */
  function CurrentStreakOf(w: seq<bool>): nat {
    if w != [] && w[0] then CountTrue(w) else 0
  }

  /** What the loop variables hold after the first `i` days of `w`. */
  ghost predicate ScanState(w: seq<bool>, i: nat, currentStreak: nat, bestStreak: nat, tempStreak: nat)
    requires i <= |w|
  {
    && tempStreak == Trailing(w[..i])
    && bestStreak <= Longest(w[..i]) && Max(bestStreak, tempStreak) == Longest(w[..i])
    && currentStreak == (if i > 0 && w[0] then CountTrue(w[..i]) else 0)
    && (currentStreak > 0 <==> i > 0 && w[0])
  }

  /** One iteration of the loop, for day `i` of the window, which is `completed` or not. */
  method ScanDay(ghost w: seq<bool>, i: nat, completed: bool, currentStreak: nat, bestStreak: nat, tempStreak: nat)
    returns (currentStreak': nat, bestStreak': nat, tempStreak': nat)
    requires i < |w| && w[i] == completed && ScanState(w, i, currentStreak, bestStreak, tempStreak)
    ensures ScanState(w, i + 1, currentStreak', bestStreak', tempStreak')
  {
    assert w[..i + 1] == w[..i] + [completed];
    TrailingSnoc(w[..i], completed);
    LongestSnoc(w[..i], completed);
    CountTrueSnoc(w[..i], completed);
    currentStreak', bestStreak', tempStreak' := currentStreak, bestStreak, tempStreak;
    if completed {
      if i == 0 || currentStreak > 0 {
        currentStreak' := currentStreak + 1;
      }
      tempStreak' := tempStreak + 1;
    } else {
      if tempStreak > bestStreak {
        bestStreak' := tempStreak;
      }
      tempStreak' := 0;
      if i == 0 {
        currentStreak' := 0;
      }
    }
  }

  /** The 30-iteration loop, with `ok(d)` standing for `entry && entry.value > 0` on day
      `d`: `checkDate` starts at today and steps back one day per iteration. */
  method StreakScan(ok: int -> bool, today: int) returns (currentStreak: nat, bestStreak: nat)
    ensures currentStreak == CurrentStreakOf(Window(ok, today, 30))
    ensures bestStreak == Longest(Window(ok, today, 30))
  {
    ghost var w := Window(ok, today, 30);
    currentStreak, bestStreak := 0, 0;
    var tempStreak: nat := 0;
    var checkDate := today;
    for i := 0 to 30
      invariant checkDate == today - i
      invariant ScanState(w, i, currentStreak, bestStreak, tempStreak)
    {
      currentStreak, bestStreak, tempStreak := ScanDay(w, i, ok(checkDate), currentStreak, bestStreak, tempStreak);
      checkDate := checkDate - 1;
    }
    if tempStreak > bestStreak {
      bestStreak := tempStreak;
    }
    assert w[..30] == w;
  }

  /** Both streaks lie in 0..30, the current one is 0 when today is missed, and the best
      one is a run of consecutive completed days. */
  lemma {:induction false} StreakBounds(ok: int -> bool, today: int)
    ensures CurrentStreakOf(Window(ok, today, 30)) <= 30 && Longest(Window(ok, today, 30)) <= 30
    ensures !ok(today) ==> CurrentStreakOf(Window(ok, today, 30)) == 0
    ensures exists i :: IsRun(Window(ok, today, 30), i, Longest(Window(ok, today, 30)))
  {
    LongestIsAttained(Window(ok, today, 30));
  }

  /** The current streak keeps counting after a missed day: with only today and the day
      before yesterday completed it is 2, although the run that ends today has length 1. */
  lemma {:induction false} CurrentStreakCountsAcrossGaps()
    ensures CurrentStreakOf([true, false, true]) == 2
    ensures Longest([true, false, true]) == 1
  {
    assert [true, false, true][..2] == [true, false];
    assert [true, false][..1] == [true];
    assert [true][..0] == [];
  }

  /** The sort key of `(a, b) => new Date(b.date) - new Date(a.date)`: newest first. */
  function NewestFirst(e: Entry): int {
    -e.day
  }

  /** `getStreakInfo`: sorts the habit's entries in place, newest first, then scans the
      last 30 days; `totalEntries` is the number of entries. */
  method GetStreakInfo(habitEntries: array<Entry>, today: int)
    returns (currentStreak: nat, bestStreak: nat, totalEntries: nat)
    modifies habitEntries
    ensures habitEntries[..] == SortBy(old(habitEntries[..]), NewestFirst)
    ensures currentStreak == CurrentStreakOf(Window(SuccessOn(habitEntries[..]), today, 30))
    ensures bestStreak == Longest(Window(SuccessOn(habitEntries[..]), today, 30))
    ensures totalEntries == habitEntries.Length
  {
    SortInPlace(habitEntries, NewestFirst);
    var entries := habitEntries[..];
    currentStreak, bestStreak := StreakScan(SuccessOn(entries), today);
    totalEntries := habitEntries.Length;
  }

  /** The last-7-days strip: square `i` is green when day `today - (6 - i)` passes `ok`. */
  function Last7(ok: int -> bool, today: int): (s: seq<bool>)
    ensures |s| == 7
  {
    seq(7, i requires 0 <= i < 7 => ok(today - (6 - i)))
  }

  /** The strip shows the first seven days of the streak window, oldest on the left and
      today on the right. */
  lemma {:induction false} Last7IsWindowReversed(ok: int -> bool, today: int, i: nat)
    requires i < 7
    ensures Last7(ok, today)[i] == Window(ok, today, 30)[6 - i]
    ensures Last7(ok, today)[6] == ok(today)
  {
  }
}
