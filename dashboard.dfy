/**
 * The habit page's operations on the store: seeding and repairing the period
 * lists, adding a habit, the progress counter, the quote of the day, the
 * once-a-minute reminder pass and the daily reset. The current time, the date
 * and the page's input fields are parameters.
 */
module Dashboard {
  import opened Wrappers
  import opened Text
  import opened Habits
  import opened Reminders
  import opened Storage
  import opened TimeFormat

  // ---------- ensureInitialized ----------

  /**
   * The `arr.map` callback on one item: a falsy id takes the next fresh id, an
   * undefined `done` becomes false (both set `changed`), an undefined
   * `isDefault` becomes false.
   */
  method RepairItem(item: Habit, next0: nat) returns (r: Habit, next: nat, wrote: bool)
    ensures r == Repair(item, FreshId(next0))
    ensures next == (if item.id == "" then next0 + 1 else next0) && wrote == NeedsWrite(item)
  {
    var id, done, isDefault := item.id, item.done, item.isDefault;
    next, wrote := next0, false;
    if id == "" {
      id := FreshId(next);
      next := next + 1;
      wrote := true;
    }
    if done.None? {
      done := Some(false);
      wrote := true;
    }
    if isDefault.None? {
      isDefault := Some(false);
    }
    r := Habit(id, item.name, item.time, done, isDefault);
  }

  /** The `arr.map(...)` pass over one stored list, drawing a fresh id for each item without one. */
  method RepairItems(arr: seq<Habit>, next0: nat) returns (out: seq<Habit>, next: nat, changed: bool)
    ensures Repaired(out, next, changed) == RepairList(arr, next0)
  {
    out, next, changed := [], next0, false;
    var j := 0;
    while j < |arr|
      invariant 0 <= j <= |arr|
      invariant Repaired(out, next, changed) == RepairList(arr[..j], next0)
    {
      assert arr[..j + 1][..j] == arr[..j];
      var h, wrote;
      h, next, wrote := RepairItem(arr[j], next);
      out := out + [h];
      changed := changed || wrote;
      j := j + 1;
    }
    assert arr[..j] == arr;
  }

  /**
   * `ensureInitialized`: each period key that is absent gets a copy of the
   * period's defaults; a present list is repaired and written back only when
   * an id or a `done` flag was added.
   */
  method EnsureInitialized(st: Store)
    modifies st
    ensures HabitState(st.habits, st.nextId) == InitUpTo(HabitState(old(st.habits), old(st.nextId)), |Periods|)
    ensures st.completed == old(st.completed) && st.badges == old(st.badges) && st.notified == old(st.notified)
  {
    ghost var s0 := HabitState(st.habits, st.nextId);
    var k := 0;
    while k < |Periods|
      invariant 0 <= k <= |Periods|
      invariant HabitState(st.habits, st.nextId) == InitUpTo(s0, k)
      invariant st.completed == old(st.completed) && st.badges == old(st.badges) && st.notified == old(st.notified)
    {
      var p := Periods[k];
      var key := PeriodKey(p);
      ghost var target := InitPeriod(HabitState(st.habits, st.nextId), p);
      assert InitUpTo(s0, k + 1) == target;
      if key !in st.habits {
        st.habits := st.habits[key := DefaultsFor(p)];
      } else {
        var arr, next, changed := RepairItems(st.habits[key], st.nextId);
        st.nextId := next;
        if changed {
          st.habits := st.habits[key := arr];
        }
      }
      assert HabitState(st.habits, st.nextId) == target;
      k := k + 1;
    }
  }

  // ---------- addNew ----------

  /** The outcome of `addNew`: the habit appended, or the alert that stopped it. */
  datatype AddOutcome = Added(habit: Habit) | NameMissing | TimeMissing

  /** The record `addNew` appends: a fresh id, the trimmed name and the time, not done and not a default. */
  function NewHabit(id: string, name: string, time: string): (h: Habit)
    ensures h.done == Some(false) && h.isDefault == Some(false)
  {
    Habit(id, name, time, Some(false), Some(false))
  }

  /**
   * `addNew(period)` with the two input fields' values: an empty trimmed name
   * or an empty time leaves the store as it is; otherwise one new habit is
   * pushed onto the period's list (read as empty when absent).
   */
  method AddNew(st: Store, period: string, nameInput: string, time: string) returns (r: AddOutcome)
    modifies st
    ensures r == if Trim(nameInput) == "" then NameMissing
      else if time == "" then TimeMissing
      else Added(NewHabit(FreshId(old(st.nextId)), Trim(nameInput), time))
    ensures !r.Added? ==> st.habits == old(st.habits) && st.nextId == old(st.nextId)
    ensures r.Added? ==>
      && st.habits == old(st.habits)[PeriodKey(period) := ListOr(old(st.habits), PeriodKey(period)) + [r.habit]]
      && st.nextId == old(st.nextId) + 1
    ensures st.completed == old(st.completed) && st.badges == old(st.badges) && st.notified == old(st.notified)
  {
    var name := Trim(nameInput);
    if name == "" {
      return NameMissing;
    }
    if time == "" {
      return TimeMissing;
    }
    var key := PeriodKey(period);
    var obj := NewHabit(FreshId(st.nextId), name, time);
    var arr := ListOr(st.habits, key) + [obj];
    st.habits, st.nextId := st.habits[key := arr], st.nextId + 1;
    r := Added(obj);
  }

  /**
   * The appended habit needs no repair: if the period's list was settled
   * before, `ensureInitialized` leaves the store exactly as `addNew` wrote it.
   */
  lemma AddedStaysSettled(s: HabitState, p: string, h: Habit)
    requires p in Periods && PeriodKey(p) in s.lists && AllSettled(s.lists[PeriodKey(p)])
    requires h == NewHabit(FreshId(s.next), h.name, h.time)
    ensures var t := HabitState(s.lists[PeriodKey(p) := s.lists[PeriodKey(p)] + [h]], s.next + 1);
      InitPeriod(t, p) == t
  {
    var t := HabitState(s.lists[PeriodKey(p) := s.lists[PeriodKey(p)] + [h]], s.next + 1);
    InitPeriodSettledNoop(t, p);
  }

  // ---------- updateTrackerUI ----------

  /** The `PERIODS.forEach` loop of `updateTrackerUI`: habits and done habits over the three period lists. */
  method CountProgress(lists: Lists) returns (done: nat, total: nat)
    ensures total == |AllItems(lists, |Periods|)| && done == DoneCount(AllItems(lists, |Periods|))
  {
    total, done := 0, 0;
    var k := 0;
    while k < |Periods|
      invariant 0 <= k <= |Periods|
      invariant total == |AllItems(lists, k)| && done == DoneCount(AllItems(lists, k))
    {
      var arr := ListOr(lists, PeriodKey(Periods[k]));
      assert AllItems(lists, k + 1) == AllItems(lists, k) + arr;
      DoneCountConcat(AllItems(lists, k), arr);
      total := total + |arr|;
      done := done + DoneCount(arr);
      k := k + 1;
    }
  }

  /**
   * The counting in `updateTrackerUI`: the number of habits and of done habits
   * over the three period lists, the rounded percentage and the mood chosen
   * from it.
   */
  method UpdateTrackerUI(st: Store) returns (done: nat, total: nat, pct: nat, mood: Mood)
    ensures total == |AllItems(st.habits, |Periods|)|
    ensures done == DoneCount(AllItems(st.habits, |Periods|))
    ensures pct == Percent(done, total) && mood == MoodFor(pct)
    ensures done <= total && pct <= 100 && (total == 0 ==> pct == 0)
  {
    done, total := CountProgress(st.habits);
    pct := Percent(done, total);
    mood := MoodFor(pct);
  }

  // ---------- pickDailyQuote ----------

  /** `QUOTES`. */
  const Quotes: seq<string> := [
    "Small habits make big changes.",
    "Consistency compounds \U{2014} keep going.",
    "One small win today beats a plan tomorrow.",
    "Build momentum \U{2014} one habit at a time.",
    "You\U{2019}re closer than you think."
  ]

  /** `(getFullYear() + getMonth() + getDate()) % QUOTES.length`, with JavaScript's remainder. */
  function QuoteIndex(year: int, month0: int, day: int): (i: int)
    ensures year + month0 + day >= 0 ==> 0 <= i < |Quotes|
    ensures i < 0 ==> year + month0 + day < 0
  {
    JsRem(year + month0 + day, |Quotes|)
  }

  /**
   * `pickDailyQuote` for a date given as its year, zero-based month and day of
   * month: the quote at the index, or None (`undefined`) for a negative index.
   */
  function PickDailyQuote(year: int, month0: int, day: int): (q: Option<string>)
    ensures q.Some? <==> year + month0 + day >= 0 || (year + month0 + day) % |Quotes| == 0
    ensures q.Some? ==> q.value in Quotes
  {
    var i := QuoteIndex(year, month0, day);
    if 0 <= i then Some(Quotes[i]) else None
  }

  /** From one day of the month to the next (with a non-negative sum) the quote moves one place round the list. */
  lemma QuoteRotates(year: int, month0: int, day: int)
    requires year + month0 + day >= 0
    ensures QuoteIndex(year, month0, day + 1) == (QuoteIndex(year, month0, day) + 1) % |Quotes|
  {
  }

  // ---------- checkReminders ----------

  /** The day's notified ids as `read(NOTIFIED_KEY + today, {})` gives them. */
  function NotifiedOn(notified: map<string, set<string>>, today: string): set<string> {
    var key := NotifiedPrefix + today;
    if key in notified then notified[key] else {}
  }

  /** The `arr.forEach` body over one list: due habits are marked, and those not done are reminded. */
  method RemindItems(arr: seq<Habit>, current: string, notified0: set<string>)
    returns (sent: seq<Habit>, notified: set<string>)
    ensures Pass(sent, notified) == RemindList(arr, current, notified0)
  {
    sent, notified := [], notified0;
    var j := 0;
    while j < |arr|
      invariant 0 <= j <= |arr|
      invariant Pass(sent, notified) == RemindList(arr[..j], current, notified0)
    {
      var h := arr[j];
      assert arr[..j + 1][..j] == arr[..j];
      if h.time == current && h.id !in notified {
        if !IsDone(h) {
          sent := sent + [h];
        }
        notified := notified + {h.id};
      }
      j := j + 1;
    }
    assert arr[..j] == arr;
  }

  /** The `PERIODS.forEach` loop of `checkReminders`: one pass over each period's list in turn. */
  method RemindAll(lists: Lists, current: string, notified0: set<string>) returns (sent: seq<Habit>, notified: set<string>)
    ensures Pass(sent, notified) == RemindUpTo(lists, current, notified0, |Periods|)
  {
    sent, notified := [], notified0;
    var k := 0;
    while k < |Periods|
      invariant 0 <= k <= |Periods|
      invariant Pass(sent, notified) == RemindUpTo(lists, current, notified0, k)
    {
      var more;
      more, notified := RemindItems(ListOr(lists, PeriodKey(Periods[k])), current, notified);
      sent := sent + more;
      k := k + 1;
    }
  }

  /**
   * `checkReminders` at the given hour and minute on the given day: the pass
   * over the three period lists, after which the day's notified map is stored
   * again. The reminders sent are returned in order; `notify` itself is not
   * modelled.
   */
  method CheckReminders(st: Store, hour: nat, minute: nat, today: string) returns (sent: seq<Habit>)
    modifies st
    ensures var r := RemindUpTo(old(st.habits), CurrentTime(hour, minute), NotifiedOn(old(st.notified), today), |Periods|);
      sent == r.sent && st.notified == old(st.notified)[NotifiedPrefix + today := r.notified]
    ensures st.completed == old(st.completed) && st.badges == old(st.badges)
    ensures st.habits == old(st.habits) && st.nextId == old(st.nextId)
  {
    var current := CurrentTime(hour, minute);
    var notified := NotifiedOn(st.notified, today);
    sent, notified := RemindAll(st.habits, current, notified);
    st.notified := st.notified[NotifiedPrefix + today := notified];
  }

  /**
   * A reminder goes out at most once per habit per day: a second pass on the
   * same day, at any time and after any change to the lists, reminds no habit
   * whose id the first pass marked.
   */
  lemma AtMostOncePerDay(lists: Lists, current: string, notified: set<string>,
                         lists': Lists, current': string, notified': set<string>)
    requires RemindUpTo(lists, current, notified, |Periods|).notified <= notified'
    ensures forall h :: h in RemindUpTo(lists', current', notified', |Periods|).sent ==>
      h.id !in RemindUpTo(lists, current, notified, |Periods|).notified
  {
    RemindUpToIsPass(lists, current, notified, |Periods|);
    RemindUpToIsPass(lists', current', notified', |Periods|);
    NoSecondReminder(AllItems(lists, |Periods|), current, notified, AllItems(lists', |Periods|), current', notified');
  }

  // ---------- resetToday ----------

  /** `arr.forEach(h => { h.done = false; })`. */
  method ClearItems(arr: seq<Habit>) returns (out: seq<Habit>)
    ensures out == ClearDone(arr)
  {
    out := [];
    var j := 0;
    while j < |arr|
      invariant 0 <= j <= |arr|
      invariant |out| == j && forall i :: 0 <= i < j ==> out[i] == arr[i].(done := Some(false))
    {
      out := out + [arr[j].(done := Some(false))];
      j := j + 1;
    }
  }

  /**
   * `resetToday`: every period list (empty when absent) is cleared and
   * written, and today's notified map is removed.
   */
  method ResetToday(st: Store, today: string)
    modifies st
    ensures st.habits == ResetUpTo(old(st.habits), |Periods|)
    ensures st.notified == old(st.notified) - {NotifiedPrefix + today}
    ensures st.completed == old(st.completed) && st.badges == old(st.badges) && st.nextId == old(st.nextId)
  {
    var k := 0;
    while k < |Periods|
      invariant 0 <= k <= |Periods|
      invariant st.habits == ResetUpTo(old(st.habits), k)
      invariant st.completed == old(st.completed) && st.badges == old(st.badges)
      invariant st.notified == old(st.notified) && st.nextId == old(st.nextId)
    {
      var key := PeriodKey(Periods[k]);
      var arr := ClearItems(ListOr(st.habits, key));
      st.habits := st.habits[key := arr];
      k := k + 1;
    }
    st.notified := st.notified - {NotifiedPrefix + today};
  }

  /** After a reset no reminder of that day has been recorded, so every due habit not done is reminded again. */
  lemma ResetForgetsReminders(notified: map<string, set<string>>, today: string)
    ensures NotifiedOn(notified - {NotifiedPrefix + today}, today) == {}
  {
  }
}
