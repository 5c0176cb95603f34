/**
 * Calendar dates as the tracker uses JavaScript `Date` objects: a (year, 1-based
 * month, day) triple in the proleptic Gregorian calendar, the one-day-back step
 * `d.setDate(d.getDate() - 1)` with its month and year rollover, and the two
 * string keys built from dates (the ledger's month key and the reflection key).
 */
module Calendar {
  import opened Text

  datatype Date = Date(year: int, month: int, day: int)

  /** Gregorian leap years; `%` here is Euclidean, which matches the calendar for negative years. */
  predicate IsLeapYear(y: int) {
    (y % 4 == 0 && y % 100 != 0) || y % 400 == 0
  }

  /** `new Date(y, m, 0).getDate()` for a 1-based month m. */
  function DaysInMonth(y: int, m: int): (n: int)
    requires 1 <= m <= 12
    ensures 28 <= n <= 31
    ensures n == 29 <==> m == 2 && IsLeapYear(y)
  {
    if m == 2 then (if IsLeapYear(y) then 29 else 28)
    else if m == 4 || m == 6 || m == 9 || m == 11 then 30
    else 31
  }

  predicate ValidDate(d: Date) {
    1 <= d.month <= 12 && 1 <= d.day <= DaysInMonth(d.year, d.month)
  }

  /**
   * A ranking of dates that follows calendar order: the year, then the month,
   * then the day (each month given 31 slots).
   */
  function Ord(d: Date): int {
    d.year * 372 + (d.month - 1) * 31 + d.day
  }

  /** Within valid dates, `Ord` compares the year, then the month, then the day. */
  lemma OrdIsLex(e: Date, d: Date)
    requires ValidDate(e) && ValidDate(d)
    ensures Ord(e) < Ord(d) <==>
      e.year < d.year || (e.year == d.year && (e.month < d.month || (e.month == d.month && e.day < d.day)))
  {
    var we, wd := (e.month - 1) * 31 + e.day, (d.month - 1) * 31 + d.day;
    assert 1 <= we <= 372 && 1 <= wd <= 372;
    if e.year < d.year {
      assert d.year * 372 - e.year * 372 == (d.year - e.year) * 372 >= 372;
    } else if e.year > d.year {
      assert e.year * 372 - d.year * 372 == (e.year - d.year) * 372 >= 372;
    }
  }

  /** The calendar day before d: `d.setDate(d.getDate() - 1)`. */
  function PrevDay(d: Date): (p: Date)
    requires ValidDate(d)
    ensures ValidDate(p) && Ord(p) < Ord(d)
  {
    if d.day > 1 then Date(d.year, d.month, d.day - 1)
    else if d.month > 1 then Date(d.year, d.month - 1, DaysInMonth(d.year, d.month - 1))
    else Date(d.year - 1, 12, 31)
  }

  /** The calendar day after d, the inverse step. */
  function NextDay(d: Date): (n: Date)
    requires ValidDate(d)
    ensures ValidDate(n) && Ord(d) < Ord(n)
  {
    if d.day < DaysInMonth(d.year, d.month) then Date(d.year, d.month, d.day + 1)
    else if d.month < 12 then Date(d.year, d.month + 1, 1)
    else Date(d.year + 1, 1, 1)
  }

  /** No valid date lies strictly between the day before d and d: the streak walk skips no day. */
  lemma PrevDayImmediate(d: Date, e: Date)
    requires ValidDate(d) && ValidDate(e) && Ord(e) < Ord(d)
    ensures Ord(e) <= Ord(PrevDay(d))
  {
    OrdIsLex(e, d);
    OrdIsLex(e, PrevDay(d));
  }

  /** No valid date lies strictly between d and the day after it. */
  lemma NextDayImmediate(d: Date, e: Date)
    requires ValidDate(d) && ValidDate(e) && Ord(d) < Ord(e)
    ensures Ord(NextDay(d)) <= Ord(e)
  {
    OrdIsLex(d, e);
    OrdIsLex(NextDay(d), e);
  }

  /** Stepping back a day and forward again (or forward and back) returns to the same date. */
  lemma PrevNextInverse(d: Date)
    requires ValidDate(d)
    ensures NextDay(PrevDay(d)) == d && PrevDay(NextDay(d)) == d
  {
  }

  /** The date `k` days before d. */
  function DaysBack(d: Date, k: nat): (r: Date)
    requires ValidDate(d)
    ensures ValidDate(r)
    decreases k
  {
    if k == 0 then d else DaysBack(PrevDay(d), k - 1)
  }

  /**
   * The ledger's month key `"<year>-<month>"` with the 1-based month unpadded
   * (dailytracker.js builds it in `monthKey`, `toggleDayCompletion`, the
   * calendar renderer and the streak walk).
   */
  function MonthKey(year: int, month: nat): string {
    IntToString(year) + "-" + NatToString(month)
  }

  /** Index of the last dash in s, or -1 when there is none. */
  function LastDash(s: string): (i: int)
    ensures -1 <= i < |s|
  {
    if s == [] then -1 else if s[|s| - 1] == '-' then |s| - 1 else LastDash(s[..|s| - 1])
  }

  lemma {:induction false} LastDashBeforeTail(a: string, b: string)
    requires '-' !in b
    ensures LastDash(a + "-" + b) == |a|
    decreases |b|
  {
    var s := a + "-" + b;
    if b != [] {
      var b' := b[..|b| - 1];
      assert s[..|s| - 1] == a + "-" + b';
      assert s[|s| - 1] == b[|b| - 1];
      LastDashBeforeTail(a, b');
    }
  }

  /** Two strings split at a dash followed by a dash-free tail have equal parts. */
  lemma SplitAtLastDash(a: string, b: string, c: string, e: string)
    requires a + "-" + b == c + "-" + e
    requires '-' !in b && '-' !in e
    ensures a == c && b == e
  {
    var s := a + "-" + b;
    LastDashBeforeTail(a, b);
    LastDashBeforeTail(c, e);
    assert b == s[|a| + 1..];
    assert a == s[..|a|];
  }

  lemma NoDashInDigits(s: string)
    requires AllDigits(s)
    ensures '-' !in s
  {
  }

  /** Different months never share a ledger key, so no two months' completions mix. */
  lemma MonthKeyInjective(y1: int, m1: nat, y2: int, m2: nat)
    requires MonthKey(y1, m1) == MonthKey(y2, m2)
    ensures y1 == y2 && m1 == m2
  {
    NoDashInDigits(NatToString(m1));
    NoDashInDigits(NatToString(m2));
    SplitAtLastDash(IntToString(y1), NatToString(m1), IntToString(y2), NatToString(m2));
    IntToStringInjective(y1, y2);
    NatToStringInjective(m1, m2);
  }

  const ReflectionPrefix: string := "reflection_"

  /**
   * The storage key of a day's reflection note, `reflection_YYYY-MM-DD` with the
   * month and day padded to two digits; the year is printed as `String(year)`.
   */
  function ReflectionKey(d: Date): (k: string)
    requires ValidDate(d)
    ensures |k| == YearEnd(d) + 6
  {
    assert |Pad2(d.month)| == 2 && |Pad2(d.day)| == 2;
    ReflectionPrefix + IntToString(d.year) + "-" + Pad2(d.month) + "-" + Pad2(d.day)
  }

  /** The position in the reflection key just after the year. */
  function YearEnd(d: Date): nat {
    |ReflectionPrefix| + |IntToString(d.year)|
  }

  lemma FieldSlices(h: string, mm: string, dd: string)
    requires |mm| == 2 && |dd| == 2
    ensures var k := h + "-" + mm + "-" + dd;
      |k| == |h| + 6 && k[..|h|] == h && k[|h|] == '-' && k[|h| + 3] == '-'
      && k[|h| + 1..|h| + 3] == mm && k[|h| + 4..] == dd
  {
  }

  /**
   * The key is the prefix, the year, and a fixed-width tail `-MM-DD` whose
   * two-character fields are the zero-padded month and day.
   */
  lemma ReflectionKeyFormat(d: Date)
    requires ValidDate(d)
    ensures KeyShape(ReflectionKey(d), ReflectionPrefix, IntToString(d.year), Pad2(d.month), Pad2(d.day))
  {
    assert |Pad2(d.month)| == 2 && |Pad2(d.day)| == 2;
    KeyLayout(ReflectionKey(d), ReflectionPrefix, IntToString(d.year), Pad2(d.month), Pad2(d.day));
  }

  /**
   * Key `k` reads, by position, as the prefix `p`, the year `y`, a dash, the
   * two-character field `mm`, a dash and the two-character field `dd`.
   */
  predicate KeyShape(k: string, p: string, y: string, mm: string, dd: string) {
    && |k| == |p| + |y| + 6 && k[..|p|] == p && k[|p|..|p| + |y|] == y
    && k[|p| + |y|] == '-' && k[|p| + |y| + 3] == '-'
    && k[|p| + |y| + 1..|p| + |y| + 3] == mm && k[|p| + |y| + 4..] == dd
  }

  /** The pieces of a key p + y + "-" + mm + "-" + dd with two-character fields, by position. */
  lemma KeyLayout(k: string, p: string, y: string, mm: string, dd: string)
    requires k == p + y + "-" + mm + "-" + dd && |mm| == 2 && |dd| == 2
    ensures KeyShape(k, p, y, mm, dd)
  {
    var head := p + y;
    assert k == head + "-" + mm + "-" + dd;
    FieldSlices(head, mm, dd);
    assert head[..|p|] == p;
    assert head[|p|..] == y;
  }

  /**
   * The key is the prefix, the year, and two dash-separated fields of exactly
   * two digits that denote the month and the day.
   */
  lemma ReflectionKeyFields(d: Date)
    requires ValidDate(d)
    ensures exists mm: string, dd: string ::
      && ReflectionKey(d) == ReflectionPrefix + IntToString(d.year) + "-" + mm + "-" + dd
      && |mm| == 2 && AllDigits(mm) && DigitsValue(mm) == d.month
      && |dd| == 2 && AllDigits(dd) && DigitsValue(dd) == d.day
  {
    var mm, dd := Pad2(d.month), Pad2(d.day);
    Pad2Value(d.month);
    Pad2Value(d.day);
    assert ReflectionKey(d) == ReflectionPrefix + IntToString(d.year) + "-" + mm + "-" + dd;
  }

  lemma FieldsEqual(h1: string, mm1: string, dd1: string, h2: string, mm2: string, dd2: string)
    requires |mm1| == 2 && |dd1| == 2 && |mm2| == 2 && |dd2| == 2
    requires h1 + "-" + mm1 + "-" + dd1 == h2 + "-" + mm2 + "-" + dd2
    ensures h1 == h2 && mm1 == mm2 && dd1 == dd2
  {
    FieldSlices(h1, mm1, dd1);
    FieldSlices(h2, mm2, dd2);
  }

  /** Different days never share a reflection key. */
  lemma ReflectionKeyInjective(d1: Date, d2: Date)
    requires ValidDate(d1) && ValidDate(d2)
    requires ReflectionKey(d1) == ReflectionKey(d2)
    ensures d1 == d2
  {
    var y1, y2 := IntToString(d1.year), IntToString(d2.year);
    var h1, h2 := ReflectionPrefix + y1, ReflectionPrefix + y2;
    FieldsEqual(h1, Pad2(d1.month), Pad2(d1.day), h2, Pad2(d2.month), Pad2(d2.day));
    assert y1 == h1[|ReflectionPrefix|..] == y2;
    IntToStringInjective(d1.year, d2.year);
    Pad2Injective(d1.month, d2.month);
    Pad2Injective(d1.day, d2.day);
  }
}
