/**
 * The consecutive-day streak read off the completion ledger: the number of
 * completed calendar days ending at a given date, stepping backwards across
 * month and year boundaries until the first day that is not completed.
 */
module Streak {
  import opened Text
  import opened Calendar
  import opened Ledger

  /**
   * The ledger entries (month key, day) that name a valid date on or before d.
   * It is finite because the ledger is, and it shrinks strictly with every
   * completed day the streak walk steps over.
   */
  ghost function Stamps(l: Ledger, d: Date): set<(string, int)> {
    set k, x | k in l && x in l[k]
      && (exists e: Date :: ValidDate(e) && k == MonthKey(e.year, e.month) && x == e.day && Ord(e) <= Ord(d))
      :: (k, x)
  }

  /** Stepping back over a completed day removes at least that day's entry. */
  lemma StampsShrink(l: Ledger, d: Date)
    requires ValidDate(d) && Completed(l, d)
    ensures Stamps(l, PrevDay(d)) < Stamps(l, d)
  {
    var p := PrevDay(d);
    var key := MonthKey(d.year, d.month);
    assert (key, d.day) in Stamps(l, d);
    forall e: Date | ValidDate(e) && MonthKey(e.year, e.month) == key && e.day == d.day
      ensures Ord(e) > Ord(p)
    {
      MonthKeyInjective(e.year, e.month, d.year, d.month);
    }
  }

  /**
   * `getConsecutiveStreakUpTo` as a recursive definition: no streak ends at a
   * day that is not completed, and a completed day extends the streak that ends
   * the day before by one.
   */
  function StreakAt(l: Ledger, d: Date): nat
    requires ValidDate(d)
    decreases Stamps(l, d)
  {
    if Completed(l, d) then
      StampsShrink(l, d);
      1 + StreakAt(l, PrevDay(d))
    else 0
  }

  /**
   * The streak is the length of the run of completed days ending at d: the n
   * days d, d-1, ..., d-(n-1) are completed and day d-n is not.
   */
  lemma {:induction false} StreakIsRun(l: Ledger, d: Date)
    requires ValidDate(d)
    ensures forall i :: 0 <= i < StreakAt(l, d) ==> Completed(l, DaysBack(d, i))
    ensures !Completed(l, DaysBack(d, StreakAt(l, d)))
    decreases Stamps(l, d)
  {
    assert DaysBack(d, 0) == d;
    if Completed(l, d) {
      var p := PrevDay(d);
      StampsShrink(l, d);
      StreakIsRun(l, p);
      var n := StreakAt(l, p);
      assert StreakAt(l, d) == n + 1;
      forall i | 0 < i < n + 1 ensures Completed(l, DaysBack(d, i)) {
        DaysBackStep(d, i - 1);
      }
      DaysBackStep(d, n);
    }
  }

  /** Going back i+1 days from d is going back i days from the day before d. */
  lemma DaysBackStep(d: Date, i: nat)
    requires ValidDate(d)
    ensures DaysBack(d, i + 1) == DaysBack(PrevDay(d), i)
  {
  }

  /** A completed day extends the streak ending the day before by one. */
  lemma StreakStep(l: Ledger, d: Date)
    requires ValidDate(d) && Completed(l, d)
    ensures StreakAt(l, d) == 1 + StreakAt(l, PrevDay(d))
  {
  }

  /** A run of n > 0 completed days ending at d, seen from the day before d. */
  lemma RunShift(l: Ledger, d: Date, n: nat)
    requires ValidDate(d) && n > 0
    requires forall i :: 0 <= i < n ==> Completed(l, DaysBack(d, i))
    requires !Completed(l, DaysBack(d, n))
    ensures Completed(l, d)
    ensures forall i :: 0 <= i < n - 1 ==> Completed(l, DaysBack(PrevDay(d), i))
    ensures !Completed(l, DaysBack(PrevDay(d), n - 1))
  {
    assert DaysBack(d, 0) == d;
    forall i | 0 <= i < n - 1 ensures Completed(l, DaysBack(PrevDay(d), i)) {
      DaysBackStep(d, i);
    }
    DaysBackStep(d, n - 1);
  }

  /** Conversely a run of n completed days ending at d, preceded by a gap, is a streak of n. */
  lemma {:induction false} RunIsStreak(l: Ledger, d: Date, n: nat)
    requires ValidDate(d)
    requires forall i :: 0 <= i < n ==> Completed(l, DaysBack(d, i))
    requires !Completed(l, DaysBack(d, n))
    ensures StreakAt(l, d) == n
    decreases n, 1
  {
    if n == 0 {
      assert DaysBack(d, 0) == d;
    } else {
      RunShift(l, d, n);
      RunIsStreakStep(l, d, n);
    }
  }

  /** The inductive step of `RunIsStreak`, once the run has been shifted back a day. */
  lemma {:induction false} RunIsStreakStep(l: Ledger, d: Date, n: nat)
    requires ValidDate(d) && n > 0 && Completed(l, d)
    requires forall i :: 0 <= i < n - 1 ==> Completed(l, DaysBack(PrevDay(d), i))
    requires !Completed(l, DaysBack(PrevDay(d), n - 1))
    ensures StreakAt(l, d) == n
    decreases n, 0
  {
    RunIsStreak(l, PrevDay(d), n - 1);
    StreakStep(l, d);
  }

  /** The streak never exceeds the number of ledger entries on or before its last day. */
  lemma {:induction false} StreakBounded(l: Ledger, d: Date)
    requires ValidDate(d)
    ensures StreakAt(l, d) <= |Stamps(l, d)|
    decreases Stamps(l, d)
  {
    if Completed(l, d) {
      StampsShrink(l, d);
      StreakBounded(l, PrevDay(d));
      assert |Stamps(l, PrevDay(d))| < |Stamps(l, d)| by {
        var big, small := Stamps(l, d), Stamps(l, PrevDay(d));
        assert big == small + (big - small);
      }
    }
  }

  /** A run that starts on 30 January and crosses into February: four days at 2 February. */
  lemma StreakAcrossMonths()
    ensures StreakAt(map["2024-1" := [30, 31], "2024-2" := [1, 2]], Date(2024, 2, 2)) == 4
  {
    var l := map["2024-1" := [30, 31], "2024-2" := [1, 2]];
    assert NatToString(2024) == "2024" by {
      assert NatToString(2) == "2";
      assert NatToString(20) == "20";
      assert NatToString(202) == "202";
    }
    assert MonthKey(2024, 1) == "2024-1" && MonthKey(2024, 2) == "2024-2";
    assert DaysBack(Date(2024, 2, 2), 1) == Date(2024, 2, 1);
    assert DaysBack(Date(2024, 2, 2), 2) == Date(2024, 1, 31);
    assert DaysBack(Date(2024, 2, 2), 3) == Date(2024, 1, 30);
    assert DaysBack(Date(2024, 2, 2), 4) == Date(2024, 1, 29);
    RunIsStreak(l, Date(2024, 2, 2), 4);
  }

  /** The days 1..last of a month that hold a run of len completed days starting at s. */
  predicate RunIn(days: seq<int>, s: int, len: nat, last: int) {
    1 <= s && s + len - 1 <= last && forall x :: s <= x < s + len ==> x in days
  }

  /** The number of consecutive days in days ending at day e, counting back from e to day 1 at most. */
  function RunEndingAt(days: seq<int>, e: int): nat
    decreases e
  {
    if e < 1 || e !in days then 0 else 1 + RunEndingAt(days, e - 1)
  }

  /** A run is still a run when the month is taken to end later. */
  lemma RunInExtends(days: seq<int>, s: int, len: nat, last: int, last': int)
    requires RunIn(days, s, len, last) && last <= last'
    ensures RunIn(days, s, len, last')
  {
  }

  /** The days counted by `RunEndingAt` form a run ending at e. */
  lemma {:induction false} RunEndingAtIsRun(days: seq<int>, e: int)
    requires RunEndingAt(days, e) > 0
    ensures RunIn(days, e - RunEndingAt(days, e) + 1, RunEndingAt(days, e), e)
    decreases e
  {
    var r := RunEndingAt(days, e) - 1;
    if r > 0 {
      RunEndingAtIsRun(days, e - 1);
      assert forall x :: e - r <= x < e ==> x in days;
    }
  }

  /** Every run ending at e is at most as long as `RunEndingAt(days, e)`. */
  lemma {:induction false} RunEndingAtIsLongest(days: seq<int>, s: int, len: nat, e: int)
    requires RunIn(days, s, len, e) && s + len - 1 == e
    ensures len <= RunEndingAt(days, e)
    decreases len
  {
    if len > 0 {
      assert e in days;
      if len > 1 {
        RunEndingAtIsLongest(days, s, len - 1, e - 1);
      }
    }
  }
}
