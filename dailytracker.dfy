/**
 * The calendar page's operations on the store: reading and writing the
 * completion ledger, toggling a day, the streak walk, the badge loop, the two
 * auto-complete paths, the longest run of a month and the top habit.
 * `today` is the date the page captured when it loaded.
 */
module DailyTracker {
  import opened Wrappers
  import opened Calendar
  import opened Ledger
  import opened Streak
  import opened Badges
  import opened Habits
  import opened TopHabit
  import opened Storage

  /** `readCompleted`: the stored ledger, normalised. */
  method ReadCompleted(st: Store) returns (l: Ledger)
    ensures l == Normalize(st.completed)
    ensures NormalForm(l)
  {
    l := Normalize(st.completed);
  }

  /** `writeCompleted`: the in-memory ledger is normalised and stored as JSON. */
  method WriteCompleted(st: Store, l: Ledger) returns (w: Ledger)
    modifies st
    ensures w == Normalize(Embed(l)) && st.completed == Embed(w)
    ensures st.badges == old(st.badges) && st.habits == old(st.habits)
    ensures st.notified == old(st.notified) && st.nextId == old(st.nextId)
  {
    w := Normalize(Embed(l));
    st.completed := Embed(w);
  }

  /**
   * `getConsecutiveStreakUpTo`: step back one day at a time while the day is
   * completed. The loop ends because each completed day it passes is one fewer
   * ledger entry on or before the current day.
   */
  method GetConsecutiveStreakUpTo(st: Store, d: Date) returns (count: nat)
    requires ValidDate(d)
    ensures count == StreakAt(Normalize(st.completed), d)
  {
    var l := ReadCompleted(st);
    count := 0;
    var cur := d;
    while true
      invariant ValidDate(cur)
      invariant count + StreakAt(l, cur) == StreakAt(l, d)
      decreases Stamps(l, cur)
    {
      var arr := DaysOf(l, MonthKey(cur.year, cur.month));
      if cur.day in arr {
        StampsShrink(l, cur);
        count := count + 1;
        cur := PrevDay(cur);
      } else {
        break;
      }
    }
  }

  /**
   * The `BADGE_THRESHOLDS.forEach` loop: every threshold the streak reaches
   * and the list lacks is pushed onto it and onto the newly unlocked list.
   */
  method UnlockBadges(badges: seq<int>, streak: int) returns (unlocked: seq<int>, newly: seq<int>)
    ensures (unlocked, newly) == Unlock(badges, streak, Thresholds)
    ensures newly == Eligible(badges, streak, Thresholds)
  {
    unlocked, newly := badges, [];
    var i := 0;
    while i < |Thresholds|
      invariant 0 <= i <= |Thresholds|
      invariant (unlocked, newly) == Unlock(badges, streak, Thresholds[..i])
    {
      var t := Thresholds[i];
      assert Thresholds[..i + 1][..i] == Thresholds[..i];
      if streak >= t && t !in unlocked {
        unlocked := unlocked + [t];
        newly := newly + [t];
      }
      i := i + 1;
    }
    assert Thresholds[..i] == Thresholds;
    UnlockReportsEligible(badges, streak, Thresholds);
  }

  /**
   * The badge part of `handleCompletionForDay`: the stored list is read, the
   * streak ending at d is taken, the threshold loop runs and the list is
   * stored again; the newly unlocked thresholds are returned.
   */
  method HandleCompletionForDay(st: Store, d: Date) returns (newly: seq<int>)
    requires ValidDate(d)
    modifies st
    ensures (st.badges, newly) == Unlock(old(st.badges), StreakAt(Normalize(st.completed), d), Thresholds)
    ensures st.completed == old(st.completed) && st.habits == old(st.habits)
    ensures st.notified == old(st.notified) && st.nextId == old(st.nextId)
  {
    var unlocked := st.badges;
    var streak := GetConsecutiveStreakUpTo(st, d);
    unlocked, newly := UnlockBadges(unlocked, streak);
    st.badges := unlocked;
  }

  /**
   * `toggleDayCompletion`: the day leaves the month's list when it is there and
   * joins it otherwise, the ledger is written back normalised, and the badge
   * loop runs exactly when the day was added.
   */
  method ToggleDayCompletion(st: Store, year: int, month: int, day: int) returns (newly: seq<int>)
    requires ValidDate(Date(year, month, day))
    modifies st
    ensures var l := Normalize(old(st.completed)); var key := MonthKey(year, month);
      && st.completed == Embed(ToggleLedger(l, key, day))
      && if day !in DaysOf(l, key) then
           (st.badges, newly) == Unlock(old(st.badges), StreakAt(ToggleLedger(l, key, day), Date(year, month, day)), Thresholds)
         else st.badges == old(st.badges) && newly == []
    ensures st.habits == old(st.habits) && st.notified == old(st.notified) && st.nextId == old(st.nextId)
  {
    var key := MonthKey(year, month);
    var l := ReadCompleted(st);
    var cur := DaysOf(l, key);
    var idx := IndexOf(cur, day);
    if idx > -1 {
      cur := RemoveAt(cur, idx);
    } else {
      cur := cur + [day];
    }
    var w := WriteCompleted(st, l[key := cur]);
    ToggleKeepsNormal(l, key, day);
    NormalizeEmbed(w);
    newly := [];
    if idx == -1 {
      newly := HandleCompletionForDay(st, Date(year, month, day));
    }
  }

  /**
   * Today's day pushed onto its month's list when it is not there yet, the
   * ledger written back, and the badge loop run: the shared tail of both
   * auto-complete paths. Adding an absent day is toggling it.
   */
  method CompleteToday(st: Store, l: Ledger, today: Date) returns (newly: seq<int>)
    requires ValidDate(today) && l == Normalize(st.completed)
    requires today.day !in DaysOf(l, MonthKey(today.year, today.month))
    modifies st
    ensures var key := MonthKey(today.year, today.month);
      && st.completed == Embed(ToggleLedger(l, key, today.day))
      && (st.badges, newly) == Unlock(old(st.badges), StreakAt(ToggleLedger(l, key, today.day), today), Thresholds)
    ensures st.habits == old(st.habits) && st.notified == old(st.notified) && st.nextId == old(st.nextId)
  {
    var key := MonthKey(today.year, today.month);
    var cur := DaysOf(l, key);
    assert Toggled(cur, today.day) == cur + [today.day];
    cur := cur + [today.day];
    var w := WriteCompleted(st, l[key := cur]);
    ToggleKeepsNormal(l, key, today.day);
    NormalizeEmbed(w);
    newly := HandleCompletionForDay(st, today);
  }

  /**
   * `autoCompleteTodayIfAllHabitsDone`: when every habit is done and today is
   * not yet in the ledger, today is added and the badge loop runs; otherwise
   * nothing changes.
   */
  method AutoCompleteTodayIfAllHabitsDone(st: Store, today: Date) returns (newly: seq<int>)
    requires ValidDate(today)
    modifies st
    ensures var l := Normalize(old(st.completed)); var key := MonthKey(today.year, today.month);
      if AllHabitsDone(old(st.habits)) && today.day !in DaysOf(l, key) then
        && st.completed == Embed(ToggleLedger(l, key, today.day))
        && (st.badges, newly) == Unlock(old(st.badges), StreakAt(ToggleLedger(l, key, today.day), today), Thresholds)
      else
        st.completed == old(st.completed) && st.badges == old(st.badges) && newly == []
    ensures st.habits == old(st.habits) && st.notified == old(st.notified) && st.nextId == old(st.nextId)
  {
    newly := [];
    if !AllHabitsDone(st.habits) {
      return;
    }
    var key := MonthKey(today.year, today.month);
    var l := ReadCompleted(st);
    if today.day !in DaysOf(l, key) {
      newly := CompleteToday(st, l, today);
    }
  }

  /**
   * `onLoadAutoCompleteCheck`: the same completion as above with the two tests
   * taken in the other order; afterwards confetti is shown when any badge is
   * unlocked.
   */
  method OnLoadAutoCompleteCheck(st: Store, today: Date) returns (newly: seq<int>, confetti: bool)
    requires ValidDate(today)
    modifies st
    ensures var l := Normalize(old(st.completed)); var key := MonthKey(today.year, today.month);
      if today.day !in DaysOf(l, key) && AllHabitsDone(old(st.habits)) then
        && st.completed == Embed(ToggleLedger(l, key, today.day))
        && (st.badges, newly) == Unlock(old(st.badges), StreakAt(ToggleLedger(l, key, today.day), today), Thresholds)
      else
        st.completed == old(st.completed) && st.badges == old(st.badges) && newly == []
    ensures confetti <==> st.badges != []
    ensures st.habits == old(st.habits) && st.notified == old(st.notified) && st.nextId == old(st.nextId)
  {
    var l := ReadCompleted(st);
    var key := MonthKey(today.year, today.month);
    var already := today.day in DaysOf(l, key);
    newly := [];
    if !already && AllHabitsDone(st.habits) {
      newly := CompleteToday(st, l, today);
    }
    confetti := |st.badges| > 0;
  }

  /**
   * The longest-run loop of `updateMonthlySummary` over days 1..days of a
   * month's list: `cur` counts the run ending at the current day and `longest`
   * keeps the largest value it reached.
   */
  method LongestRunInMonth(arr: seq<int>, days: int) returns (longest: nat)
    ensures longest == 0 || exists s :: RunIn(arr, s, longest, days)
    ensures forall s, len: nat :: RunIn(arr, s, len, days) ==> len <= longest
  {
    longest := 0;
    var cur: nat := 0;
    var d := 1;
    ghost var prev := 0;
    while d <= days
      invariant 1 <= d && (d <= days + 1 || d == 1) && prev == d - 1
      invariant cur == RunEndingAt(arr, prev) && cur <= longest
      invariant longest == 0 || exists s :: RunIn(arr, s, longest, prev)
      invariant forall s, len: nat :: RunIn(arr, s, len, prev) ==> len <= longest
    {
      ghost var before := longest;
      if d in arr {
        cur := cur + 1;
        longest := if longest >= cur then longest else cur;
      } else {
        cur := 0;
      }
      assert cur == RunEndingAt(arr, d);
      if longest == cur && cur > 0 {
        RunEndingAtIsRun(arr, d);
      } else if longest > 0 {
        var s :| RunIn(arr, s, longest, d - 1);
        RunInExtends(arr, s, longest, d - 1, d);
      }
      forall s, len: nat | RunIn(arr, s, len, d) ensures len <= longest {
        if s + len - 1 == d {
          RunEndingAtIsLongest(arr, s, len, d);
        } else {
          assert RunIn(arr, s, len, d - 1);
        }
      }
      d := d + 1;
      prev := prev + 1;
    }
  }

  /** counts and order are the `counts` object after the habits of items: its keys in insertion order and their done counts. */
  ghost predicate Tally(items: seq<Habit>, counts: map<string, nat>, order: seq<string>) {
    && order == Names(items)
    && (forall n :: n in counts <==> n in order)
    && (forall n :: n in counts ==> counts[n] == DoneWith(items, n))
  }

  /** The tally after one more habit: its name is added when new, and counted when the habit is done. */
  function CountOne(counts: map<string, nat>, order: seq<string>, h: Habit): (map<string, nat>, seq<string>) {
    var name := NameOf(h);
    var c := if name in counts then counts else counts[name := 0];
    var o := if name in counts then order else order + [name];
    (if IsDone(h) then c[name := c[name] + 1] else c, o)
  }

  /** One counting step keeps the tally. */
  lemma TallySnoc(seen: seq<Habit>, h: Habit, counts: map<string, nat>, order: seq<string>)
    requires Tally(seen, counts, order)
    ensures Tally(seen + [h], CountOne(counts, order, h).0, CountOne(counts, order, h).1)
  {
    var name := NameOf(h);
    NamesSnoc(seen, h);
    forall n ensures DoneWith(seen + [h], n) == DoneWith(seen, n) + (if name == n && IsDone(h) then 1 else 0) {
      DoneWithSnoc(seen, h, n);
    }
    if name !in counts {
      DoneWithUnseen(seen, name);
    }
  }

  /** The `counts` object and its key order after counting the habits of items, one `CountOne` step per habit, from t. */
  function CountFrom(t: (map<string, nat>, seq<string>), items: seq<Habit>): (map<string, nat>, seq<string>) {
    if items == [] then t
    else
      var p := CountFrom(t, items[..|items| - 1]);
      CountOne(p.0, p.1, items[|items| - 1])
  }

  /** The tally of items from the empty `counts` object. */
  function TallyOf(items: seq<Habit>): (map<string, nat>, seq<string>) {
    CountFrom((map[], []), items)
  }

  /** Counting a + b is counting a and then b. */
  lemma {:induction false} CountFromConcat(t: (map<string, nat>, seq<string>), a: seq<Habit>, b: seq<Habit>)
    ensures CountFrom(t, a + b) == CountFrom(CountFrom(t, a), b)
  {
    if b == [] {
      assert a + b == a;
    } else {
      var b' := b[..|b| - 1];
      assert (a + b)[..|a + b| - 1] == a + b';
      CountFromConcat(t, a, b');
    }
  }

  /** The tally holds, for every name of the items, its number of done habits, in first-seen order. */
  lemma {:induction false} TallyOfSpec(items: seq<Habit>)
    ensures Tally(items, TallyOf(items).0, TallyOf(items).1)
  {
    if items != [] {
      var pre := items[..|items| - 1];
      TallyOfSpec(pre);
      TallySnoc(pre, items[|items| - 1], TallyOf(pre).0, TallyOf(pre).1);
      assert pre + [items[|items| - 1]] == items;
    }
  }

  /** The `arr.forEach` body of `determineTopHabit` over one present list. */
  method CountList(arr: seq<Habit>, counts0: map<string, nat>, order0: seq<string>)
    returns (counts: map<string, nat>, order: seq<string>)
    ensures (counts, order) == CountFrom((counts0, order0), arr)
  {
    counts, order := counts0, order0;
    var j := 0;
    while j < |arr|
      invariant 0 <= j <= |arr|
      invariant (counts, order) == CountFrom((counts0, order0), arr[..j])
    {
      var h := arr[j];
      var name := NameOf(h);
      ghost var next := CountOne(counts, order, h);
      assert arr[..j + 1][..j] == arr[..j];
      if name !in counts {
        counts := counts[name := 0];
        order := order + [name];
      }
      if IsDone(h) {
        counts := counts[name := counts[name] + 1];
      }
      assert (counts, order) == next;
      j := j + 1;
    }
    assert arr[..j] == arr;
  }

  /** The `keysToCheck.forEach` loop: the tally over every present list, and whether any was present. */
  method CountAll(lists: Lists, keys: seq<string>) returns (counts: map<string, nat>, order: seq<string>, any: bool)
    ensures (counts, order) == TallyOf(Pooled(lists, keys))
    ensures any <==> AnyPresent(lists, keys)
  {
    counts, order, any := map[], [], false;
    var k := 0;
    while k < |keys|
      invariant 0 <= k <= |keys|
      invariant any <==> AnyPresent(lists, keys[..k])
      invariant (counts, order) == TallyOf(Pooled(lists, keys[..k]))
    {
      var key := keys[k];
      ghost var before := Pooled(lists, keys[..k]);
      assert keys[..k + 1] == keys[..k] + [key];
      PooledSnoc(lists, keys[..k], key);
      AnyPresentSnoc(lists, keys[..k], key);
      if key in lists {
        any := true;
        counts, order := CountList(lists[key], counts, order);
        CountFromConcat((map[], []), before, lists[key]);
      } else {
        assert Pooled(lists, keys[..k + 1]) == before + [] == before;
      }
      k := k + 1;
    }
    assert keys[..k] == keys;
  }

  /** The front of the names sorted by descending count with a stable sort: the first of the largest. */
  method FirstOfLargest(counts: map<string, nat>, order: seq<string>) returns (best: nat)
    requires order != [] && forall n :: n in order ==> n in counts
    ensures best < |order|
    ensures forall j :: 0 <= j < |order| ==> counts[order[j]] <= counts[order[best]]
    ensures forall j :: 0 <= j < best ==> counts[order[j]] < counts[order[best]]
  {
    best := 0;
    var i := 1;
    while i < |order|
      invariant 1 <= i <= |order| && best < i
      invariant forall j :: 0 <= j < i ==> counts[order[j]] <= counts[order[best]]
      invariant forall j :: 0 <= j < best ==> counts[order[j]] < counts[order[best]]
    {
      if counts[order[i]] > counts[order[best]] {
        best := i;
      }
      i := i + 1;
    }
  }

  /**
   * `determineTopHabit`: the done counts per name over every list present
   * under the three period keys and the legacy key, then the first name with
   * the largest count. None when no list is present or the lists hold no habit.
   */
  method DetermineTopHabit(st: Store) returns (top: Option<string>)
    ensures var items := Pooled(st.habits, BridgeKeys);
      && (top.None? <==> !AnyPresent(st.habits, BridgeKeys) || items == [])
      && (top.Some? ==> exists i :: IsTopAt(items, i) && top.value == Names(items)[i])
  {
    var counts, order, any := CountAll(st.habits, BridgeKeys);
    ghost var items := Pooled(st.habits, BridgeKeys);
    if !any {
      PooledEmpty(st.habits, BridgeKeys);
      return None;
    }
    TallyOfSpec(items);
    if order == [] {
      return None;
    }
    var best := FirstOfLargest(counts, order);
    NamesSpec(items);
    assert IsTopAt(items, best);
    top := Some(order[best]);
  }
}
