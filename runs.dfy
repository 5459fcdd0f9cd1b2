/** Runs of consecutive successes, as the streak loops of the dashboard and the habits
    page count them: `tempStreak` grows on a success and drops to 0 on a miss, and
    `bestStreak` keeps the largest value `tempStreak` reached. */
module Runs {

  function Max(a: int, b: int): int {
    if a >= b then a else b
  }

  /** The length of the run of successes that ends `s` (`tempStreak` after `s`). */
  function Trailing(s: seq<bool>): (n: nat)
    ensures n <= |s|
    ensures forall k :: |s| - n <= k < |s| ==> s[k]
    ensures n < |s| ==> !s[|s| - n - 1]
  {
    if s == [] || !s[|s| - 1] then 0 else Trailing(s[..|s| - 1]) + 1
  }

  /** The largest `tempStreak` seen while scanning `s` (`bestStreak` after `s`). */
  function Longest(s: seq<bool>): (n: nat)
    ensures n <= |s|
  {
    if s == [] then 0 else Max(Longest(s[..|s| - 1]), Trailing(s))
  }

  /** The number of successes in `s`. */
  function CountTrue(s: seq<bool>): (n: nat)
    ensures n <= |s|
  {
    if s == [] then 0 else CountTrue(s[..|s| - 1]) + (if s[|s| - 1] then 1 else 0)
  }

  /** One more day: the trailing run grows on a success and restarts on a miss. */
  lemma {:induction false} TrailingSnoc(s: seq<bool>, b: bool)
    ensures Trailing(s + [b]) == if b then Trailing(s) + 1 else 0
  {
    assert (s + [b])[..|s|] == s;
  }

  /** One more day: the longest run is the old one or the run that now ends the days. */
  lemma {:induction false} LongestSnoc(s: seq<bool>, b: bool)
    ensures Longest(s + [b]) == Max(Longest(s), Trailing(s + [b]))
  {
    assert (s + [b])[..|s|] == s;
  }

  lemma {:induction false} CountTrueSnoc(s: seq<bool>, b: bool)
    ensures CountTrue(s + [b]) == CountTrue(s) + if b then 1 else 0
  {
    assert (s + [b])[..|s|] == s;
  }

  /** `len` consecutive successes start at position `i`. */
  ghost predicate IsRun(s: seq<bool>, i: int, len: nat) {
    0 <= i && i + len <= |s| && forall k :: i <= k < i + len ==> s[k]
  }

  lemma {:induction false} TrailingIsMaximal(s: seq<bool>, i: int)
    requires 0 <= i <= |s| && IsRun(s, i, |s| - i)
    ensures |s| - i <= Trailing(s)
    decreases |s|
  {
    if i < |s| {
      var p := s[..|s| - 1];
      assert IsRun(p, i, |p| - i);
      TrailingIsMaximal(p, i);
    }
  }

  /** No run is longer than `Longest`. */
  lemma {:induction false} LongestIsMaximal(s: seq<bool>, i: int, len: nat)
    requires IsRun(s, i, len)
    ensures len <= Longest(s)
    decreases |s|
  {
    if s != [] {
      var p := s[..|s| - 1];
      if i + len == |s| {
        TrailingIsMaximal(s, i);
      } else {
        assert IsRun(p, i, len);
        LongestIsMaximal(p, i, len);
      }
    }
  }

  /** Some run is exactly `Longest` long. */
  lemma {:induction false} LongestIsAttained(s: seq<bool>)
    ensures exists i :: IsRun(s, i, Longest(s))
  {
    if s == [] {
      assert IsRun(s, 0, 0);
    } else {
      var p := s[..|s| - 1];
      if Longest(p) >= Trailing(s) {
        LongestIsAttained(p);
        var i :| IsRun(p, i, Longest(p));
        assert IsRun(s, i, Longest(s));
      } else {
        assert IsRun(s, |s| - Trailing(s), Longest(s));
      }
    }
  }

  lemma {:induction false} TrailingAtMostCount(s: seq<bool>)
    ensures Trailing(s) <= CountTrue(s)
  {
    if s != [] && s[|s| - 1] {
      TrailingAtMostCount(s[..|s| - 1]);
    }
  }

  /** The longest run has no more successes than the whole sequence. */
  lemma {:induction false} LongestAtMostCount(s: seq<bool>)
    ensures Longest(s) <= CountTrue(s)
  {
    if s != [] {
      LongestAtMostCount(s[..|s| - 1]);
      TrailingAtMostCount(s);
    }
  }
}
