/** src/lib/utils.ts: date formatting, period ranges and class-name joining. */
module Utils {
  import opened Common
  import opened Dates

  /** date-fns `yyyy`: the era year (1 - y for years up to 0), at least four digits. */
  function YearText(y: int): string {
    PadLeft(NatToString(if y > 0 then y else 1 - y), 4)
  }

  function TwoDigits(n: nat): (s: string)
    requires 1 <= n <= 31
    ensures |s| == 2 && IsDigit(s[0]) && IsDigit(s[1])
  {
    NatToStringDigits(n);
    PadLeftShape(NatToString(n), 2);
    var s := PadLeft(NatToString(n), 2);
    assert s[|s| - |NatToString(n)|..] == NatToString(n);
    assert IsDigit(s[1]) by { assert s[1] == s[|s| - |NatToString(n)|..][1 - (|s| - |NatToString(n)|)]; }
    s
  }

  /** `formatDate`: `format(date, 'yyyy-MM-dd')`. */
  function FormatDate(d: int): string {
    var c := ToCivil(d);
    DateText(YearText(c.year), TwoDigits(c.month), TwoDigits(c.day))
  }

  function DateText(y: string, m: string, d: string): string {
    y + "-" + m + "-" + d
  }

  predicate AllDigits(s: string) {
    forall i :: 0 <= i < |s| ==> IsDigit(s[i])
  }

  lemma {:induction false} YearTextDigits(y: int)
    ensures AllDigits(YearText(y)) && |YearText(y)| >= 4
    ensures 1 <= y <= 9999 ==> |YearText(y)| == 4
  {
    NatToStringDigits(if y > 0 then y else 1 - y);
    PadLeftKeepsDigits(NatToString(if y > 0 then y else 1 - y), 4);
  }

  lemma {:induction false} PadLeftKeepsDigits(s: string, width: nat)
    requires AllDigits(s)
    ensures AllDigits(PadLeft(s, width))
  {
    if |s| < width {
      var z := Zeros(width - |s|);
      ZerosAreZeros(width - |s|);
      var t := z + s;
      assert PadLeft(s, width) == t;
      forall i | 0 <= i < |t| ensures IsDigit(t[i]) {
        if i < |z| {
          assert t[i] == z[i];
        } else {
          assert t[i] == s[i - |z|];
        }
      }
    }
  }

  /** Between years 1 and 9999 the year text is four digits that spell the year. */
  lemma {:induction false} YearTextValue(y: int)
    requires 1 <= y <= 9999
    ensures AllDigits(YearText(y)) && |YearText(y)| == 4
    ensures DecimalValue(YearText(y)) == y
  {
    YearTextDigits(y);
    DecimalValueOfNatToString(y);
    var n := NatToString(y);
    if |n| < 4 {
      DecimalValueZeros(4 - |n|, n);
    }
  }

  /** The two-digit text of a month or day spells that number. */
  lemma {:induction false} TwoDigitsValue(n: nat)
    requires 1 <= n <= 31
    ensures AllDigits(TwoDigits(n))
    ensures DecimalValue(TwoDigits(n)) == n
  {
    DecimalValueOfNatToString(n);
    var t := NatToString(n);
    assert TwoDigits(n) == PadLeft(t, 2);
    if |t| < 2 {
      DecimalValueZeros(2 - |t|, t);
    }
  }

  /** Date texts with fields of equal widths compare year first, then month, then day. */
  lemma {:induction false} DateTextOrder(ya: string, ma: string, da: string, yb: string, mb: string, db: string)
    requires |ya| == |yb| && |ma| == |mb|
    ensures LexLess(DateText(ya, ma, da), DateText(yb, mb, db))
            <==> LexLess(ya, yb) || (ya == yb && (LexLess(ma, mb) || (ma == mb && LexLess(da, db))))
  {
    assert DateText(ya, ma, da) == ya + ("-" + (ma + ("-" + da)));
    assert DateText(yb, mb, db) == yb + ("-" + (mb + ("-" + db)));
    LexLessConcat(ya, "-" + (ma + ("-" + da)), yb, "-" + (mb + ("-" + db)));
    LexLessConcat("-", ma + ("-" + da), "-", mb + ("-" + db));
    LexLessConcat(ma, "-" + da, mb, "-" + db);
    LexLessConcat("-", da, "-", db);
  }

  /** For years 1 to 9999, comparing two `formatDate` texts as strings, as the program does,
      compares the days they name. */
  lemma {:induction false} FormatDateOrder(a: int, b: int)
    requires 1 <= ToCivil(a).year <= 9999 && 1 <= ToCivil(b).year <= 9999
    ensures LexLess(FormatDate(a), FormatDate(b)) <==> a < b
  {
    var ca, cb := ToCivil(a), ToCivil(b);
    CivilOrder(a, b);
    CivilTextOrder(ca, cb);
  }

  /** The same for calendar dates: text order is calendar order. */
  lemma {:induction false} CivilTextOrder(ca: CivilDate, cb: CivilDate)
    requires 1 <= ca.year <= 9999 && 1 <= cb.year <= 9999
    requires 1 <= ca.month <= 12 && 1 <= cb.month <= 12
    requires 1 <= ca.day <= 31 && 1 <= cb.day <= 31
    ensures LexLess(DateText(YearText(ca.year), TwoDigits(ca.month), TwoDigits(ca.day)),
                    DateText(YearText(cb.year), TwoDigits(cb.month), TwoDigits(cb.day)))
            <==> CivilLess(ca, cb)
  {
    var ya, ma, da := YearText(ca.year), TwoDigits(ca.month), TwoDigits(ca.day);
    var yb, mb, db := YearText(cb.year), TwoDigits(cb.month), TwoDigits(cb.day);
    YearTextValue(ca.year);
    YearTextValue(cb.year);
    TwoDigitsValue(ca.month);
    TwoDigitsValue(cb.month);
    TwoDigitsValue(ca.day);
    TwoDigitsValue(cb.day);
    LexLessDigits(ya, yb);
    LexLessDigits(ma, mb);
    LexLessDigits(da, db);
    DateTextOrder(ya, ma, da, yb, mb, db);
  }

  predicate IsIsoDateShape(s: string) {
    |s| == 10 && s[4] == '-' && s[7] == '-'
    && forall i :: 0 <= i < 10 && i != 4 && i != 7 ==> IsDigit(s[i])
  }

  lemma {:induction false} DateTextShape(y: string, m: string, d: string)
    requires |y| == 4 && |m| == 2 && |d| == 2 && AllDigits(y) && AllDigits(m) && AllDigits(d)
    ensures IsIsoDateShape(DateText(y, m, d))
  {
    var s := DateText(y, m, d);
    assert s == y + ['-'] + m + ['-'] + d;
    forall i | 0 <= i < 10 && i != 4 && i != 7 ensures IsDigit(s[i]) {
      if i < 4 { assert s[i] == y[i]; }
      else if i < 7 { assert s[i] == m[i - 5]; }
      else { assert s[i] == d[i - 8]; }
    }
  }

  /** For years 1..9999 `formatDate` yields the pattern yyyy-MM-dd. */
  lemma {:induction false} FormatDateShape(d: int)
    requires 1 <= ToCivil(d).year <= 9999
    ensures IsIsoDateShape(FormatDate(d))
  {
    var c := ToCivil(d);
    YearTextDigits(c.year);
    DateTextShape(YearText(c.year), TwoDigits(c.month), TwoDigits(c.day));
  }

  /** No formatted date contains the letter 'T'. */
  lemma {:induction false} FormatDateHasNoT(d: int)
    ensures 'T' !in FormatDate(d)
  {
    var c := ToCivil(d);
    var y, m, dd := YearText(c.year), TwoDigits(c.month), TwoDigits(c.day);
    YearTextDigits(c.year);
    var s := DateText(y, m, dd);
    assert s == y + ['-'] + m + ['-'] + dd;
    forall i | 0 <= i < |s| ensures s[i] != 'T' {
      if i < |y| { assert s[i] == y[i]; }
      else if i == |y| { }
      else if i < |y| + 3 { assert s[i] == m[i - |y| - 1]; }
      else if i == |y| + 3 { }
      else { assert s[i] == dd[i - |y| - 4]; }
    }
  }

  /** The JSON form of a date stored at midnight UTC (`Date.prototype.toISOString`). */
  function IsoString(d: int): string {
    FormatDate(d) + "T00:00:00.000Z"
  }

  /** `iso.split('T')[0]` gives back the date part. */
  lemma {:induction false} IsoDatePart(d: int)
    ensures BeforeFirst(IsoString(d), 'T') == FormatDate(d)
  {
    var f := FormatDate(d);
    FormatDateHasNoT(d);
    var s := IsoString(d);
    assert s[|f|] == 'T';
    assert s[..|f|] == f;
    assert s[..|f| + 1] == f + ['T'];
  }

  /** `iso.substring(0, 10)` gives back the date part for four-digit years. */
  lemma {:induction false} IsoFirstTen(d: int)
    requires 1 <= ToCivil(d).year <= 9999
    ensures Take(IsoString(d), 10) == FormatDate(d)
  {
    FormatDateShape(d);
    assert IsoString(d)[..10] == FormatDate(d);
  }

  datatype DayRange = DayRange(start: int, end: int)

  /** `getDateRange`: the period of `frequency` around `d`, as an inclusive range of days
      (`startOfDay`..`endOfDay` covers exactly day `d`). */
  function GetDateRange(d: int, frequency: string): (r: DayRange)
    ensures r.start <= d <= r.end
    ensures frequency == "weekly" ==> r.end - r.start == 6 && Weekday(r.start) == 0
    ensures frequency == "monthly" ==> r.start == StartOfMonth(d) && r.end == EndOfMonth(d)
    ensures frequency != "weekly" && frequency != "monthly" ==> r == DayRange(d, d)
  {
    match frequency
    case "daily" => DayRange(d, d)
    case "weekly" => DayRange(StartOfWeek(d), EndOfWeek(d))
    case "monthly" => DayRange(StartOfMonth(d), EndOfMonth(d))
    case _ => DayRange(d, d)
  }

  /** `[f(start), f(start + 1), ..., f(start + count - 1)]`: one value per day of a run of
      consecutive days, as the pages' day loops build them. */
  function MapDays<T>(f: int -> T, start: int, count: nat): (s: seq<T>)
    ensures |s| == count
  {
    if count == 0 then [] else MapDays(f, start, count - 1) + [f(start + count - 1)]
  }

  /** Position `i` holds the value of day `start + i`. */
  lemma {:induction false} MapDaysAt<T>(f: int -> T, start: int, count: nat, i: nat)
    requires i < count
    ensures MapDays(f, start, count)[i] == f(start + i)
  {
    if i < count - 1 {
      MapDaysAt(f, start, count - 1, i);
    }
  }

  /** A class argument is kept when it is truthy: defined and not the empty string. */
  predicate Truthy(c: Option<string>) {
    c.Some? && c.value != ""
  }

  /** `cn(...classes)`: `classes.filter(Boolean).join(' ')`. */
  function Cn(classes: seq<Option<string>>): string {
    if classes == [] then ""
    else if !Truthy(classes[0]) then Cn(classes[1..])
    else if Cn(classes[1..]) == "" then classes[0].value
    else classes[0].value + " " + Cn(classes[1..])
  }

  /** `cn` is empty exactly when no argument is truthy. */
  lemma {:induction false} CnEmpty(classes: seq<Option<string>>)
    ensures Cn(classes) == "" <==> forall i :: 0 <= i < |classes| ==> !Truthy(classes[i])
  {
    if classes != [] {
      CnEmpty(classes[1..]);
      assert forall i :: 1 <= i < |classes| ==> classes[i] == classes[1..][i - 1];
    }
  }

  lemma {:induction false} CnSingle(s: string)
    requires s != ""
    ensures Cn([Some(s)]) == s && Cn([]) == "" && Cn([None, Some(s), Some("")]) == s
  {
    assert [None, Some(s), Some("")][1..] == [Some(s), Some("")];
    assert [Some(s), Some("")][1..] == [Some("")];
    assert Cn([Some("")]) == "" by { assert [Some("")][1..] == []; }
  }

  /** `cn(a..., b...)` joins `cn(a...)` and `cn(b...)` with one space when both are nonempty. */
  lemma {:induction false} CnConcat(a: seq<Option<string>>, b: seq<Option<string>>)
    ensures Cn(a + b) == if Cn(a) == "" then Cn(b)
                         else if Cn(b) == "" then Cn(a)
                         else Cn(a) + " " + Cn(b)
  {
    if a != [] {
      var ab := a + b;
      assert ab[1..] == a[1..] + b;
      assert ab[0] == a[0] && ab != [];
      CnConcat(a[1..], b);
      var x, r, t, u := a[0], Cn(a[1..]), Cn(b), Cn(a[1..] + b);
      if !Truthy(x) {
        assert Cn(ab) == u && Cn(a) == r;
      } else {
        assert Cn(ab) == if u == "" then x.value else x.value + " " + u;
        assert Cn(a) == if r == "" then x.value else x.value + " " + r;
        assert Cn(a) != "";
        if r != "" && t != "" {
          assert u == r + " " + t;
          assert x.value + " " + (r + " " + t) == (x.value + " " + r) + " " + t;
        }
      }
    } else {
      assert a + b == b;
    }
  }
}
