/** Values and string operations shared by every part of the model. */
module Common {

  datatype Option<T> = None | Some(value: T)

  /** An HTTP reply: a successful body or an error message, each with its status code. */
  datatype Response<T> = Ok(status: nat, value: T) | Fail(status: nat, error: string)
  {
    function Status(): nat {
      match this
      case Ok(s, _) => s
      case Fail(s, _) => s
    }
  }

  /** A date search parameter: absent or empty (falsy), text on which `new Date` gives an
      Invalid Date, or the day it names. */
  datatype DateParam = NoDate | BadDate | OnDay(day: int)

  /** `startDate && endDate`: both bounds are given, so the date filter is built. */
  predicate BothGiven(start: DateParam, end: DateParam) {
    !start.NoDate? && !end.NoDate?
  }

  /** The date filter is built with an Invalid Date in it, which makes the query throw. */
  predicate BadRange(start: DateParam, end: DateParam) {
    BothGiven(start, end) && (start.BadDate? || end.BadDate?)
  }

  /** With both bounds readable, day `d` lies in the inclusive range; without both bounds,
      every day passes. */
  predicate InRange(start: DateParam, end: DateParam, d: int) {
    start.OnDay? && end.OnDay? ==> start.day <= d <= end.day
  }

  predicate StartsWith(s: string, p: string) {
    |p| <= |s| && s[..|p|] == p
  }

  predicate EndsWith(s: string, p: string) {
    |p| <= |s| && s[|s| - |p|..] == p
  }

  /** `t` occurs in `s` starting at position `i`. */
  predicate OccursAt(s: string, t: string, i: int) {
    0 <= i && i + |t| <= |s| && s[i..i + |t|] == t
  }

  /** Substring test (`t in s` in Python, `s.includes(t)` in JavaScript). */
  predicate Contains(s: string, t: string) {
    exists i | 0 <= i <= |s| - |t| :: OccursAt(s, t, i)
  }

  lemma {:induction false} ContainsConcat(a: string, b: string, t: string)
    requires Contains(b, t)
    ensures Contains(a + b, t)
  {
    var i :| 0 <= i <= |b| - |t| && OccursAt(b, t, i);
    var j, n := |a| + i, |t|;
    assert (a + b)[j..j + n] == b[i..i + n];
    assert OccursAt(a + b, t, j);
  }

  lemma {:induction false} ContainsPrefix(a: string, b: string, t: string)
    requires Contains(a, t)
    ensures Contains(a + b, t)
  {
    var i :| 0 <= i <= |a| - |t| && OccursAt(a, t, i);
    var n := |t|;
    assert (a + b)[i..i + n] == a[i..i + n];
    assert OccursAt(a + b, t, i);
  }

  /** A text that lacks the first character of `t` does not hold `t`. */
  lemma {:induction false} LacksFirstChar(s: string, t: string)
    requires |t| > 0 && t[0] !in s
    ensures !Contains(s, t)
  {
    forall i | 0 <= i <= |s| - |t| ensures !OccursAt(s, t, i) {
      assert s[i..i + |t|][0] == s[i];
    }
  }

  lemma {:induction false} StartsWithContains(s: string, t: string)
    requires StartsWith(s, t)
    ensures Contains(s, t)
  {
    assert OccursAt(s, t, 0);
  }

  /** Case folding of ASCII letters (Python `lower`, JavaScript `toLowerCase`). */
  function LowerChar(c: char): char {
    if 'A' <= c <= 'Z' then (c as int + 32) as char else c
  }

  function ToLower(s: string): (r: string)
    ensures |r| == |s|
    ensures forall i :: 0 <= i < |s| ==> r[i] == LowerChar(s[i])
  {
    if s == [] then [] else [LowerChar(s[0])] + ToLower(s[1..])
  }

  /** ECMAScript WhiteSpace and LineTerminator: what `trim` removes and what `\s` matches. */
  predicate IsSpace(c: char) {
    c == ' ' || c == '\t' || c == '\n' || c == '\r' || c == '\U{000B}' || c == '\U{000C}'
    || c == '\U{00A0}' || c == '\U{1680}' || ('\U{2000}' <= c <= '\U{200A}')
    || c == '\U{2028}' || c == '\U{2029}' || c == '\U{202F}' || c == '\U{205F}'
    || c == '\U{3000}' || c == '\U{FEFF}'
  }

  function TrimStart(s: string): (r: string)
    ensures |r| <= |s| && r == s[|s| - |r|..]
    ensures r == [] || !IsSpace(r[0])
    ensures forall i :: 0 <= i < |s| - |r| ==> IsSpace(s[i])
  {
    if s != [] && IsSpace(s[0]) then TrimStart(s[1..]) else s
  }

  function TrimEnd(s: string): (r: string)
    ensures |r| <= |s| && r == s[..|r|]
    ensures r == [] || !IsSpace(r[|r| - 1])
    ensures forall i :: |r| <= i < |s| ==> IsSpace(s[i])
  {
    if s != [] && IsSpace(s[|s| - 1]) then TrimEnd(s[..|s| - 1]) else s
  }

  /** JavaScript `String.prototype.trim`: whitespace removed from both ends. */
  function Trim(s: string): string {
    TrimEnd(TrimStart(s))
  }

  lemma {:induction false} TrimEmptyIffAllSpace(s: string)
    ensures Trim(s) == [] <==> forall i :: 0 <= i < |s| ==> IsSpace(s[i])
  {
    var a := TrimStart(s);
    if a != [] {
      assert !IsSpace(a[0]);
      assert s[|s| - |a|] == a[0];
    }
  }

  lemma {:induction false} TrimIdempotent(s: string)
    ensures Trim(Trim(s)) == Trim(s)
  {
    var t := Trim(s);
    assert TrimStart(t) == t;
    assert TrimEnd(t) == t;
  }

  function DigitChar(d: nat): char
    requires d < 10
  {
    ('0' as int + d) as char
  }

  predicate IsDigit(c: char) {
    '0' <= c <= '9'
  }

  predicate IsAsciiAlnum(c: char) {
    IsDigit(c) || ('a' <= c <= 'z') || ('A' <= c <= 'Z')
  }

  /** Decimal digits of a natural number, without leading zeros. */
  function NatToString(n: nat): (s: string)
    ensures |s| >= 1
    ensures n < 10 ==> |s| == 1
    ensures 10 <= n < 100 ==> |s| == 2
    ensures 100 <= n < 1000 ==> |s| == 3
    ensures 1000 <= n < 10000 ==> |s| == 4
    decreases n
  {
    if n < 10 then [DigitChar(n)] else NatToString(n / 10) + [DigitChar(n % 10)]
  }

  /** Every character of the decimal text is a digit. */
  lemma {:induction false} NatToStringDigits(n: nat)
    ensures forall i :: 0 <= i < |NatToString(n)| ==> IsDigit(NatToString(n)[i])
    decreases n
  {
    if n >= 10 {
      NatToStringDigits(n / 10);
      var s := NatToString(n);
      assert s == NatToString(n / 10) + [DigitChar(n % 10)];
      forall i | 0 <= i < |s| ensures IsDigit(s[i]) {
        if i < |s| - 1 {
          assert s[i] == NatToString(n / 10)[i];
        }
      }
    }
  }

  function Zeros(n: nat): (r: string)
    ensures |r| == n
  {
    if n == 0 then [] else ['0'] + Zeros(n - 1)
  }

  lemma {:induction false} ZerosAreZeros(n: nat)
    ensures forall i :: 0 <= i < n ==> Zeros(n)[i] == '0'
  {
    if n > 0 {
      ZerosAreZeros(n - 1);
      assert forall i :: 1 <= i < n ==> Zeros(n)[i] == Zeros(n - 1)[i - 1];
    }
  }

  /** Left padding with '0' to at least `width` characters (date-fns `yyyy`, `MM`, `dd`). */
  function PadLeft(s: string, width: nat): (r: string)
    ensures |r| == if |s| >= width then |s| else width
  {
    if |s| >= width then s else Zeros(width - |s|) + s
  }

  /** The padded text ends with the original and is filled with '0' in front of it. */
  lemma {:induction false} PadLeftShape(s: string, width: nat)
    ensures EndsWith(PadLeft(s, width), s)
    ensures forall i :: 0 <= i < |PadLeft(s, width)| - |s| ==> PadLeft(s, width)[i] == '0'
  {
    if |s| < width {
      ZerosAreZeros(width - |s|);
      var r := PadLeft(s, width);
      assert r[|r| - |s|..] == s;
    }
  }

  /** Number of occurrences of `c` in `s`. */
  function CountChar(s: string, c: char): (n: nat)
    ensures n <= |s|
    ensures n == 0 <==> c !in s
  {
    if s == [] then 0 else (if s[0] == c then 1 else 0) + CountChar(s[1..], c)
  }

  /** Position of the first occurrence of `c`. */
  function IndexOf(s: string, c: char): (i: nat)
    requires c in s
    ensures i < |s| && s[i] == c
    ensures forall k :: 0 <= k < i ==> s[k] != c
  {
    if s[0] == c then 0 else 1 + IndexOf(s[1..], c)
  }

  /** Python `str.split(c)` and JavaScript `split(c)` for a one-character separator: the
      first character either ends the first piece or joins it. */
  function Split(s: string, c: char): (parts: seq<string>)
    ensures |parts| >= 1
  {
    if s == [] then [[]]
    else
      var rest := Split(s[1..], c);
      if s[0] == c then [[]] + rest else [[s[0]] + rest[0]] + rest[1..]
  }

  /** No piece holds the separator. */
  lemma {:induction false} SplitPiecesLackSeparator(s: string, c: char)
    ensures forall k :: 0 <= k < |Split(s, c)| ==> c !in Split(s, c)[k]
  {
    if s != [] {
      SplitPiecesLackSeparator(s[1..], c);
      var rest := Split(s[1..], c);
      if s[0] != c {
        assert forall x :: x in [s[0]] + rest[0] ==> x == s[0] || x in rest[0];
      }
    }
  }

  /** A text without the separator is a single piece. */
  lemma {:induction false} SplitWithout(s: string, c: char)
    requires c !in s
    ensures Split(s, c) == [s]
  {
    if s != [] {
      SplitWithout(s[1..], c);
      assert [s[0]] + s[1..] == s;
    }
  }

  /** A text with the separator has more than one piece. */
  lemma {:induction false} SplitWith(s: string, c: char)
    requires c in s
    ensures |Split(s, c)| >= 2
  {
    if s[0] != c {
      SplitWith(s[1..], c);
    }
  }

  /** Up to the first separator is the first piece; the rest splits on its own. */
  lemma {:induction false} SplitAfterPiece(a: string, b: string, c: char)
    requires c !in a
    ensures Split(a + [c] + b, c) == [a] + Split(b, c)
  {
    if a == [] {
      assert a + [c] + b == [c] + b;
      assert ([c] + b)[1..] == b;
    } else {
      SplitAfterPiece(a[1..], b, c);
      assert (a + [c] + b)[1..] == a[1..] + [c] + b;
      assert [a[0]] + a[1..] == a;
    }
  }

  /** Joining with a one-character separator (Python `c.join`, JavaScript `join(c)`). */
  function Join(parts: seq<string>, c: char): string {
    if parts == [] then []
    else if |parts| == 1 then parts[0]
    else parts[0] + [c] + Join(parts[1..], c)
  }

  lemma {:induction false} JoinSplit(s: string, c: char)
    ensures Join(Split(s, c), c) == s
  {
    if s != [] {
      JoinSplit(s[1..], c);
      var rest := Split(s[1..], c);
      if s[0] == c {
        assert ([[]] + rest)[1..] == rest;
      } else if |rest| == 1 {
        assert [s[0]] + s[1..] == s;
      } else {
        assert ([[s[0]] + rest[0]] + rest[1..])[1..] == rest[1..];
        assert [s[0]] + (rest[0] + [c] + Join(rest[1..], c)) == s;
      }
    }
  }

  /** Position of the last occurrence of `c` among the first `n` characters. */
  function LastIndexBelow(s: string, c: char, n: nat): (i: nat)
    requires n <= |s| && c in s[..n]
    ensures i < n && s[i] == c
    ensures forall j :: i < j < n ==> s[j] != c
    decreases n
  {
    if s[n - 1] == c then n - 1
    else
      assert c in s[..n - 1] by {
        var k :| 0 <= k < n && s[..n][k] == c;
        assert s[..n - 1][k] == c;
      }
      LastIndexBelow(s, c, n - 1)
  }

  /** Position of the last occurrence of `c`. */
  function LastIndexOf(s: string, c: char): (i: nat)
    requires c in s
    ensures i < |s| && s[i] == c
    ensures forall k :: i < k < |s| ==> s[k] != c
  {
    assert s[..|s|] == s;
    LastIndexBelow(s, c, |s|)
  }

  /** A `c` with no `c` after it is the last one. */
  lemma {:induction false} LastIndexOfIs(s: string, c: char, j: nat)
    requires j < |s| && s[j] == c
    requires forall k :: j < k < |s| ==> s[k] != c
    ensures c in s && LastIndexOf(s, c) == j
  {
  }

  /** The text after the last `c`, or the whole text when there is none
      (Python `os.path.basename` for '/', JavaScript `split(c).pop()`). */
  function AfterLast(s: string, c: char): (r: string)
    ensures EndsWith(s, r) && c !in r
    ensures |r| < |s| ==> s[|s| - |r| - 1] == c
  {
    if c !in s then s else s[LastIndexOf(s, c) + 1..]
  }

  /** Dropping the first character keeps the text after the last `c` when a `c` follows it,
      and leaves what follows it when that character is the last `c`. */
  lemma {:induction false} AfterLastOfTail(s: string, c: char)
    requires s != []
    ensures c in s[1..] ==> AfterLast(s[1..], c) == AfterLast(s, c)
    ensures c !in s[1..] && s[0] == c ==> AfterLast(s, c) == s[1..]
  {
    var rest := s[1..];
    if c in rest {
      LastOfTail(s, c);
    } else if s[0] == c {
      assert forall k :: 0 < k < |s| ==> s[k] == rest[k - 1];
      LastIndexOfIs(s, c, 0);
    }
  }

  /** A `c` after the first character: the last one of the text is the last one of the tail. */
  lemma {:induction false} LastOfTail(s: string, c: char)
    requires s != [] && c in s[1..]
    ensures AfterLast(s[1..], c) == AfterLast(s, c)
  {
    var rest := s[1..];
    var j := LastIndexOf(rest, c);
    assert forall k :: 1 + j < k < |s| ==> s[k] == rest[k - 1];
    LastIndexOfIs(s, c, 1 + j);
    assert AfterLast(s, c) == s[1 + j + 1..];
    assert AfterLast(rest, c) == rest[j + 1..];
    assert s[1 + j + 1..] == rest[j + 1..];
  }

  lemma {:induction false} AfterLastIsLastPiece(s: string, c: char)
    ensures Split(s, c)[|Split(s, c)| - 1] == AfterLast(s, c)
  {
    if s != [] {
      if c in s[1..] {
        AfterLastIsLastPiece(s[1..], c);
        AfterLastOfTail(s, c);
        LastPieceOfTail(s, c);
      } else {
        LastPieceWithoutTailSeparator(s, c);
      }
    }
  }

  /** When the tail holds a `c`, the last piece is the tail's. */
  lemma {:induction false} LastPieceOfTail(s: string, c: char)
    requires s != [] && c in s[1..]
    ensures Split(s, c)[|Split(s, c)| - 1] == Split(s[1..], c)[|Split(s[1..], c)| - 1]
  {
    SplitWith(s[1..], c);
    var rest := Split(s[1..], c);
    var n := |rest|;
    if s[0] == c {
      assert Split(s, c) == [[]] + rest;
      assert ([[]] + rest)[n] == rest[n - 1];
    } else {
      var parts := [[s[0]] + rest[0]] + rest[1..];
      assert Split(s, c) == parts && |parts| == n;
      assert parts[n - 1] == rest[1..][n - 2] == rest[n - 1];
    }
  }

  /** When the tail holds no `c`, the last piece is the tail itself, or the whole text. */
  lemma {:induction false} LastPieceWithoutTailSeparator(s: string, c: char)
    requires s != [] && c !in s[1..]
    ensures Split(s, c)[|Split(s, c)| - 1] == AfterLast(s, c)
  {
    SplitWithout(s[1..], c);
    if s[0] == c {
      AfterLastOfTail(s, c);
      assert Split(s, c) == [[], s[1..]];
    } else {
      assert [s[0]] + s[1..] == s;
      assert Split(s, c) == [s];
      assert forall k :: 0 < k < |s| ==> s[k] == s[1..][k - 1];
      assert c !in s;
    }
  }

  /** JavaScript `s.split(c)[0]`: the text before the first `c`. */
  function BeforeFirst(s: string, c: char): (r: string)
    ensures StartsWith(s, r) && c !in r
    ensures |r| < |s| ==> s[|r|] == c
  {
    if c in s then s[..IndexOf(s, c)] else s
  }

  /** JavaScript `s.substring(0, n)` for n >= 0. */
  function Take(s: string, n: nat): (r: string)
    ensures |r| == if |s| < n then |s| else n
    ensures StartsWith(s, r)
  {
    if |s| <= n then s else s[..n]
  }

  /** `Array.prototype.find` / `findIndex`: the position of the first element satisfying `p`. */
  function FirstIndex<T>(s: seq<T>, p: T -> bool): (r: Option<nat>)
    ensures r.Some? ==> r.value < |s| && p(s[r.value]) && forall k :: 0 <= k < r.value ==> !p(s[k])
    ensures r.None? ==> forall k :: 0 <= k < |s| ==> !p(s[k])
  {
    if s == [] then None
    else if p(s[0]) then Some(0)
    else match FirstIndex(s[1..], p)
      case None => None
      case Some(k) => Some(k + 1)
  }

  /** Two tests that agree on every element find the same first index. */
  lemma {:induction false} SameFirstIndex<T>(s: seq<T>, p: T -> bool, q: T -> bool)
    requires forall j :: 0 <= j < |s| ==> p(s[j]) == q(s[j])
    ensures FirstIndex(s, p) == FirstIndex(s, q)
  {
    if s != [] {
      SameFirstIndex(s[1..], p, q);
    }
  }

  /** `Array.prototype.filter`. */
  function Filter<T>(s: seq<T>, p: T -> bool): (r: seq<T>)
    ensures |r| <= |s|
    ensures forall i :: 0 <= i < |r| ==> r[i] in s && p(r[i])
    ensures forall i :: 0 <= i < |s| && p(s[i]) ==> s[i] in r
  {
    if s == [] then []
    else if p(s[0]) then [s[0]] + Filter(s[1..], p)
    else Filter(s[1..], p)
  }

  /** The number of elements satisfying `p`. */
  function Count<T>(s: seq<T>, p: T -> bool): (n: nat)
    ensures n <= |s|
  {
    if s == [] then 0 else (if p(s[0]) then 1 else 0) + Count(s[1..], p)
  }

  lemma {:induction false} FilterCount<T>(s: seq<T>, p: T -> bool)
    ensures |Filter(s, p)| == Count(s, p)
  {
    if s != [] {
      FilterCount(s[1..], p);
    }
  }

  lemma {:induction false} CountAppend<T>(a: seq<T>, b: seq<T>, p: T -> bool)
    ensures Count(a + b, p) == Count(a, p) + Count(b, p)
  {
    if a == [] {
      assert a + b == b;
    } else {
      assert (a + b)[1..] == a[1..] + b;
      CountAppend(a[1..], b, p);
    }
  }

  lemma {:induction false} FilterAppend<T>(a: seq<T>, b: seq<T>, p: T -> bool)
    ensures Filter(a + b, p) == Filter(a, p) + Filter(b, p)
  {
    if a == [] {
      assert a + b == b;
    } else {
      assert (a + b)[1..] == a[1..] + b;
      FilterAppend(a[1..], b, p);
    }
  }

  /** Filtering keeps a sequence whose every element passes. */
  lemma {:induction false} FilterAllPass<T>(s: seq<T>, p: T -> bool)
    requires forall i :: 0 <= i < |s| ==> p(s[i])
    ensures Filter(s, p) == s
  {
    if s != [] {
      FilterAllPass(s[1..], p);
    }
  }

  /** JavaScript `a < b` on strings: lexicographic order of the characters. */
  predicate LexLess(a: string, b: string) {
    if a == [] then b != []
    else if b == [] then false
    else if a[0] != b[0] then a[0] < b[0]
    else LexLess(a[1..], b[1..])
  }

  /** JavaScript `a <= b` on strings. */
  predicate LexAtMost(a: string, b: string) {
    !LexLess(b, a)
  }

  /** Comparing `x + u` with `y + v`, where `x` and `y` are equally long, compares `x` with
      `y` first and looks at `u` and `v` only when `x` and `y` are equal. */
  lemma {:induction false} LexLessConcat(x: string, u: string, y: string, v: string)
    requires |x| == |y|
    ensures LexLess(x + u, y + v) <==> LexLess(x, y) || (x == y && LexLess(u, v))
  {
    if x == [] {
      assert x + u == u && y + v == v;
    } else {
      assert (x + u)[0] == x[0] && (y + v)[0] == y[0];
      assert (x + u)[1..] == x[1..] + u && (y + v)[1..] == y[1..] + v;
      assert x == [x[0]] + x[1..] && y == [y[0]] + y[1..];
      LexLessConcat(x[1..], u, y[1..], v);
    }
  }

  function DigitValue(c: char): nat
    requires IsDigit(c)
  {
    c as int - '0' as int
  }

  /** The leading run of decimal digits. */
  function DigitPrefix(s: string): (r: string)
    ensures |r| <= |s| && r == s[..|r|]
    ensures forall i :: 0 <= i < |r| ==> IsDigit(r[i])
    ensures |r| < |s| ==> !IsDigit(s[|r|])
  {
    if s != [] && IsDigit(s[0]) then [s[0]] + DigitPrefix(s[1..]) else []
  }

  /** The number a text of decimal digits denotes. */
  function DecimalValue(s: string): nat
    requires forall i :: 0 <= i < |s| ==> IsDigit(s[i])
  {
    if s == [] then 0 else 10 * DecimalValue(s[..|s| - 1]) + DigitValue(s[|s| - 1])
  }

  function Pow10(n: nat): (p: nat)
    ensures p >= 1
  {
    if n == 0 then 1 else 10 * Pow10(n - 1)
  }

  /** A text of n digits denotes a number below 10^n. */
  lemma {:induction false} DecimalValueBound(s: string)
    requires forall i :: 0 <= i < |s| ==> IsDigit(s[i])
    ensures DecimalValue(s) < Pow10(|s|)
  {
    if s != [] {
      var init := s[..|s| - 1];
      assert forall i :: 0 <= i < |init| ==> init[i] == s[i];
      DecimalValueBound(init);
      assert 10 * DecimalValue(init) + 10 <= 10 * Pow10(|init|);
    }
  }

  /** The leading digit of a text weighs 10 to the power of the number of digits after it. */
  lemma {:induction false} DecimalValueCons(c: char, s: string)
    requires IsDigit(c) && forall i :: 0 <= i < |s| ==> IsDigit(s[i])
    ensures forall i :: 0 <= i < |[c] + s| ==> IsDigit(([c] + s)[i])
    ensures DecimalValue([c] + s) == DigitValue(c) * Pow10(|s|) + DecimalValue(s)
  {
    var t := [c] + s;
    assert forall i :: 1 <= i < |t| ==> t[i] == s[i - 1];
    if s == [] {
      assert t[..|t| - 1] == [];
    } else {
      var init := s[..|s| - 1];
      assert forall i :: 0 <= i < |init| ==> init[i] == s[i];
      assert t[..|t| - 1] == [c] + init;
      DecimalValueCons(c, init);
      ShiftDigit(DigitValue(c), Pow10(|init|), DecimalValue(init), DigitValue(s[|s| - 1]));
    }
  }

  /** Appending a digit multiplies the weight of the leading digit by ten. */
  lemma ShiftDigit(dc: int, p: int, v: int, last: int)
    ensures 10 * (dc * p + v) + last == dc * (10 * p) + (10 * v + last)
  {
  }

  /** Leading zeros do not change the number. */
  lemma {:induction false} DecimalValueZeros(k: nat, s: string)
    requires forall i :: 0 <= i < |s| ==> IsDigit(s[i])
    ensures forall i :: 0 <= i < |Zeros(k) + s| ==> IsDigit((Zeros(k) + s)[i])
    ensures DecimalValue(Zeros(k) + s) == DecimalValue(s)
  {
    if k == 0 {
      assert Zeros(k) + s == s;
    } else {
      DecimalValueZeros(k - 1, s);
      var r := Zeros(k - 1) + s;
      assert Zeros(k) + s == ['0'] + r;
      DecimalValueCons('0', r);
    }
  }

  /** Between digit texts of one length, string order is numeric order, and equal texts
      are equal numbers. */
  lemma {:induction false} LexLessDigits(s: string, t: string)
    requires |s| == |t|
    requires forall i :: 0 <= i < |s| ==> IsDigit(s[i])
    requires forall i :: 0 <= i < |t| ==> IsDigit(t[i])
    ensures LexLess(s, t) <==> DecimalValue(s) < DecimalValue(t)
    ensures s == t <==> DecimalValue(s) == DecimalValue(t)
  {
    if s != [] {
      var s1, t1 := s[1..], t[1..];
      assert forall i :: 0 <= i < |s1| ==> s1[i] == s[i + 1];
      assert forall i :: 0 <= i < |t1| ==> t1[i] == t[i + 1];
      LexLessDigits(s1, t1);
      LexLessDigitsStep(s[0], s1, t[0], t1);
      assert s == [s[0]] + s1 && t == [t[0]] + t1;
    }
  }

  /** One step of `LexLessDigits`: the first digits decide unless they are equal. */
  lemma {:induction false} LexLessDigitsStep(c: char, x: string, d: char, y: string)
    requires IsDigit(c) && IsDigit(d) && |x| == |y|
    requires forall i :: 0 <= i < |x| ==> IsDigit(x[i])
    requires forall i :: 0 <= i < |y| ==> IsDigit(y[i])
    requires LexLess(x, y) <==> DecimalValue(x) < DecimalValue(y)
    requires x == y <==> DecimalValue(x) == DecimalValue(y)
    ensures forall i :: 0 <= i < |[c] + x| ==> IsDigit(([c] + x)[i])
    ensures forall i :: 0 <= i < |[d] + y| ==> IsDigit(([d] + y)[i])
    ensures LexLess([c] + x, [d] + y) <==> DecimalValue([c] + x) < DecimalValue([d] + y)
    ensures [c] + x == [d] + y <==> DecimalValue([c] + x) == DecimalValue([d] + y)
  {
    DecimalValueCons(c, x);
    DecimalValueCons(d, y);
    DecimalValueBound(x);
    DecimalValueBound(y);
    var s, t := [c] + x, [d] + y;
    assert s[0] == c && t[0] == d && s[1..] == x && t[1..] == y;
    assert s == t <==> c == d && x == y;
    var p := Pow10(|x|);
    if c < d {
      LeadingDigitDecides(DigitValue(c), DigitValue(d), p, DecimalValue(x), DecimalValue(y));
    } else if d < c {
      LeadingDigitDecides(DigitValue(d), DigitValue(c), p, DecimalValue(y), DecimalValue(x));
    }
  }

  /** A smaller leading digit makes a smaller number, whatever follows it. */
  lemma LeadingDigitDecides(a: nat, b: nat, p: nat, x: nat, y: nat)
    requires a < b && x < p && y < p
    ensures a * p + x < b * p + y
  {
    assert (a + 1) * p <= b * p;
  }

  predicate IsHexDigit(c: char) {
    IsDigit(c) || ('a' <= c <= 'f') || ('A' <= c <= 'F')
  }

  function HexDigitValue(c: char): (v: nat)
    requires IsHexDigit(c)
    ensures v < 16
  {
    if IsDigit(c) then DigitValue(c)
    else if 'a' <= c <= 'f' then c as int - 'a' as int + 10
    else c as int - 'A' as int + 10
  }

  /** The leading run of hexadecimal digits. */
  function HexPrefix(s: string): (r: string)
    ensures |r| <= |s| && r == s[..|r|]
    ensures forall i :: 0 <= i < |r| ==> IsHexDigit(r[i])
    ensures |r| < |s| ==> !IsHexDigit(s[|r|])
  {
    if s != [] && IsHexDigit(s[0]) then [s[0]] + HexPrefix(s[1..]) else []
  }

  function HexValue(s: string): nat
    requires forall i :: 0 <= i < |s| ==> IsHexDigit(s[i])
  {
    if s == [] then 0 else 16 * HexValue(s[..|s| - 1]) + HexDigitValue(s[|s| - 1])
  }

  /** The digits after the sign: base 16 after `0x`/`0X`, base 10 otherwise; `None` when
      no digit follows. */
  function ParseUnsigned(u: string): Option<nat> {
    if |u| >= 2 && u[0] == '0' && (u[1] == 'x' || u[1] == 'X') then
      var h := HexPrefix(u[2..]);
      if h == [] then None else Some(HexValue(h))
    else
      var d := DigitPrefix(u);
      if d == [] then None else Some(DecimalValue(d))
  }

  /** JavaScript `parseInt(s)` without a radix: leading whitespace and one sign are
      skipped, then the digits are read as `ParseUnsigned` reads them; `None` stands for
      NaN. */
  function ParseInt(s: string): Option<int> {
    var t := TrimStart(s);
    if t != [] && (t[0] == '-' || t[0] == '+') then
      match ParseUnsigned(t[1..])
      case None => None
      case Some(v) =>
        var n: int := v;
        Some(if t[0] == '-' then -n else n)
    else
      match ParseUnsigned(t)
      case None => None
      case Some(v) => Some(v)
  }

  /** `String(n)` / `n.toString()` for an integer. */
  function IntToString(n: int): (s: string)
    ensures |s| >= 1
  {
    if n < 0 then "-" + NatToString(-n) else NatToString(n)
  }

  lemma {:induction false} DecimalValueOfNatToString(n: nat)
    ensures forall i :: 0 <= i < |NatToString(n)| ==> IsDigit(NatToString(n)[i])
    ensures DecimalValue(NatToString(n)) == n
    decreases n
  {
    NatToStringDigits(n);
    if n >= 10 {
      DecimalValueOfNatToString(n / 10);
      var s := NatToString(n);
      assert s[..|s| - 1] == NatToString(n / 10);
    }
  }

  /** Digits with no leading sign or space are read as a decimal number. */
  lemma {:induction false} ParseUnsignedOfDigits(digits: string)
    requires digits != [] && forall i :: 0 <= i < |digits| ==> IsDigit(digits[i])
    requires |digits| >= 2 ==> digits[0] != '0'
    ensures ParseUnsigned(digits) == Some(DecimalValue(digits))
  {
    DigitPrefixOfDigits(digits);
  }

  /** A text that starts with neither whitespace nor a sign is read as `ParseUnsigned`
      reads it. */
  lemma {:induction false} ParseIntUnsigned(s: string, v: nat)
    requires s != [] && !IsSpace(s[0]) && s[0] != '-' && s[0] != '+'
    requires ParseUnsigned(s) == Some(v)
    ensures ParseInt(s) == Some(v as int)
  {
    assert TrimStart(s) == s;
  }

  /** A `-` followed by a text is read as the negated `ParseUnsigned` of that text. */
  lemma {:induction false} ParseIntMinus(u: string, v: nat)
    requires ParseUnsigned(u) == Some(v)
    ensures ParseInt(['-'] + u) == Some(-(v as int))
  {
    var s := ['-'] + u;
    assert !IsSpace(s[0]);
    assert TrimStart(s) == s;
    assert s[1..] == u;
  }

  lemma {:induction false} ParseIntOfDigits(digits: string)
    requires digits != [] && forall i :: 0 <= i < |digits| ==> IsDigit(digits[i])
    requires |digits| >= 2 ==> digits[0] != '0'
    ensures ParseInt(digits) == Some(DecimalValue(digits) as int)
  {
    ParseUnsignedOfDigits(digits);
    assert IsDigit(digits[0]);
    ParseIntUnsigned(digits, DecimalValue(digits));
  }

  lemma {:induction false} ParseIntOfNegativeDigits(digits: string)
    requires digits != [] && forall i :: 0 <= i < |digits| ==> IsDigit(digits[i])
    requires |digits| >= 2 ==> digits[0] != '0'
    ensures ParseInt(['-'] + digits) == Some(-(DecimalValue(digits) as int))
  {
    ParseUnsignedOfDigits(digits);
    ParseIntMinus(digits, DecimalValue(digits));
  }

  /** Reading back the text of an integer gives the integer. */
  lemma {:induction false} ParseIntOfIntToString(n: int)
    ensures ParseInt(IntToString(n)) == Some(n)
  {
    var m := if n < 0 then -n else n;
    DecimalValueOfNatToString(m);
    NatToStringNoLeadingZero(m);
    if n < 0 {
      ParseIntOfNegativeDigits(NatToString(m));
    } else {
      ParseIntOfDigits(NatToString(m));
    }
  }

  lemma {:induction false} NatToStringNoLeadingZero(n: nat)
    ensures |NatToString(n)| >= 2 ==> NatToString(n)[0] != '0'
    decreases n
  {
    if n >= 10 {
      NatToStringNoLeadingZero(n / 10);
      assert NatToString(n)[0] == NatToString(n / 10)[0];
    }
  }

  lemma {:induction false} DigitPrefixOfDigits(s: string)
    requires forall i :: 0 <= i < |s| ==> IsDigit(s[i])
    ensures DigitPrefix(s) == s
  {
    if s != [] {
      DigitPrefixOfDigits(s[1..]);
    }
  }

  /** Tests that agree on every element filter alike. */
  lemma {:induction false} FilterExt<T>(s: seq<T>, p: T -> bool, q: T -> bool)
    requires forall i :: 0 <= i < |s| ==> p(s[i]) == q(s[i])
    ensures Filter(s, p) == Filter(s, q)
  {
    if s != [] {
      FilterExt(s[1..], p, q);
    }
  }

  /** Filtering twice is filtering by both tests. */
  lemma {:induction false} FilterFilter<T>(s: seq<T>, p: T -> bool, q: T -> bool, r: T -> bool)
    requires forall i :: 0 <= i < |s| ==> r(s[i]) == (p(s[i]) && q(s[i]))
    ensures Filter(Filter(s, p), q) == Filter(s, r)
  {
    if s != [] {
      FilterFilter(s[1..], p, q, r);
      if p(s[0]) {
        assert Filter(s, p) == [s[0]] + Filter(s[1..], p);
        assert Filter(s, p)[1..] == Filter(s[1..], p);
      }
    }
  }

  /** What the filter keeps is exactly the elements that pass. */
  lemma {:induction false} FilterMembers<T>(s: seq<T>, p: T -> bool)
    ensures forall x :: x in Filter(s, p) <==> x in s && p(x)
  {
    forall x | x in s && p(x) ensures x in Filter(s, p) {
      var i :| 0 <= i < |s| && s[i] == x;
    }
  }

  /** No element passes: nothing is kept. */
  lemma {:induction false} FilterNone<T>(s: seq<T>, p: T -> bool)
    requires forall i :: 0 <= i < |s| ==> !p(s[i])
    ensures Filter(s, p) == []
  {
    if s != [] {
      FilterNone(s[1..], p);
    }
  }

  /** A sequence without repeated elements holds each element at most once. */
  lemma {:induction false} DistinctMultiset<T>(s: seq<T>, x: T)
    requires forall i, j :: 0 <= i < j < |s| ==> s[i] != s[j]
    ensures multiset(s)[x] <= 1
  {
    if s != [] {
      assert s == [s[0]] + s[1..];
      DistinctMultiset(s[1..], x);
      if x == s[0] {
        assert x !in s[1..];
      }
    }
  }
}
