/**
 * The habit lists stored under `habits_<period>`: the habit record, the default
 * lists, the repair pass of `ensureInitialized`, the daily reset, the all-done
 * test that links the lists to the completion ledger, and the progress counter.
 */
module Habits {
  import opened Text
  import opened Wrappers

  /**
   * One stored habit `{ id, habit, time, done, isDefault }`. A falsy `id` or
   * `habit` is the empty string; an absent `done` or `isDefault` is None.
   */
  datatype Habit = Habit(id: string, name: string, time: string, done: Option<bool>, isDefault: Option<bool>)

  /** `h.done` is truthy. */
  predicate IsDone(h: Habit) {
    h.done == Some(true)
  }

  /** `PERIODS`. */
  const Periods: seq<string> := ["morning", "afternoon", "night"]

  /** `STORAGE_PREFIX`. */
  const StoragePrefix: string := "habits_"

  function PeriodKey(p: string): string {
    StoragePrefix + p
  }

  /** The period keys as the calendar page spells them (`HABITS_PREFIXES`). */
  const TrackerKeys: seq<string> := ["habits_morning", "habits_afternoon", "habits_night"]

  /** `HABITS_FALLBACK_KEY`, a legacy single list that only the calendar page reads. */
  const FallbackKey: string := "habits"

  /** Both pages name the same three storage keys, and the legacy key is none of them. */
  lemma TrackerKeysArePeriodKeys()
    ensures |TrackerKeys| == |Periods|
    ensures forall i :: 0 <= i < |Periods| ==> TrackerKeys[i] == PeriodKey(Periods[i])
    ensures FallbackKey !in TrackerKeys
  {
  }

  /** All habit lists in storage: key to array; a missing key is absent from the map. */
  type Lists = map<string, seq<Habit>>

  /** `read(key, [])`: the stored list, or the empty list when the key is absent. */
  function ListOr(lists: Lists, key: string): seq<Habit> {
    if key in lists then lists[key] else []
  }

  /** The habits of the first k period lists, in period order (an absent list contributes nothing). */
  function AllItems(lists: Lists, k: nat): seq<Habit>
    requires k <= |Periods|
  {
    if k == 0 then [] else AllItems(lists, k - 1) + ListOr(lists, PeriodKey(Periods[k - 1]))
  }

  function Default(id: string, name: string, time: string): Habit {
    Habit(id, name, time, Some(false), Some(true))
  }

  /** `DEFAULTS[p]`: four habits per period with constant ids, not done, marked default. */
  function DefaultsFor(p: string): (r: seq<Habit>)
    requires p in Periods
    ensures |r| == 4
    ensures forall i :: 0 <= i < |r| ==> r[i].id != "" && r[i].done == Some(false) && r[i].isDefault == Some(true)
  {
    if p == "morning" then
      [Default("d-m-1", "Drink Water \U{1F4A7}", "07:00"),
       Default("d-m-2", "Stretch / Yoga \U{1F9D8}", "07:15"),
       Default("d-m-3", "Plan Today \U{1F5D3}", "07:30"),
       Default("d-m-4", "Read 10 Pages \U{1F4D6}", "08:00")]
    else if p == "afternoon" then
      [Default("d-a-1", "Eat Healthy Lunch \U{1F957}", "13:00"),
       Default("d-a-2", "Short Walk \U{1F6B6}\U{200D}\U{2640}", "14:00"),
       Default("d-a-3", "Drink Water Again \U{1F4A6}", "15:00"),
       Default("d-a-4", "Avoid Distractions \U{1F6AB}", "16:00")]
    else
      [Default("d-n-1", "Reflect on the Day \U{2728}", "21:00"),
       Default("d-n-2", "Journal / Gratitude \U{1F4D4}", "21:15"),
       Default("d-n-3", "Prep for Tomorrow \U{1F392}", "21:30"),
       Default("d-n-4", "Sleep Early \U{1F634}", "22:00")]
  }

  /** The n-th id of the fresh-id supply that stands for `uid()`. */
  function FreshId(n: nat): (id: string)
    ensures id != ""
  {
    "h" + NatToString(n)
  }

  lemma FreshIdInjective(a: nat, b: nat)
    requires FreshId(a) == FreshId(b)
    ensures a == b
  {
    assert NatToString(a) == FreshId(a)[1..] == FreshId(b)[1..] == NatToString(b);
    NatToStringInjective(a, b);
  }

  // ---------- ensureInitialized ----------

  /** An item the repair pass must write back: its id is falsy or its `done` is undefined. */
  predicate NeedsWrite(h: Habit) {
    h.id == "" || h.done.None?
  }

  /**
   * r is h repaired: it has an id, a `done` flag and an `isDefault` flag, and it
   * keeps every field h had.
   */
  predicate RepairedFrom(h: Habit, r: Habit) {
    && r.id != "" && r.done.Some? && r.isDefault.Some?
    && r.name == h.name && r.time == h.time
    && (h.id != "" ==> r.id == h.id)
    && (h.done.Some? ==> r.done == h.done)
    && (h.isDefault.Some? ==> r.isDefault == h.isDefault)
  }

  /**
   * The repair of one item: a falsy id becomes the given fresh id, an undefined
   * `done` becomes false, an undefined `isDefault` becomes false.
   */
  function Repair(h: Habit, newId: string): (r: Habit)
    requires newId != ""
    ensures RepairedFrom(h, r)
    ensures h.id == "" ==> r.id == newId
  {
    Habit(if h.id == "" then newId else h.id, h.name, h.time,
          if h.done.None? then Some(false) else h.done,
          if h.isDefault.None? then Some(false) else h.isDefault)
  }

  /** The number of items with a falsy id, which is the number of `uid()` calls. */
  function MissingIds(items: seq<Habit>): nat {
    if items == [] then 0
    else MissingIds(items[..|items| - 1]) + (if items[|items| - 1].id == "" then 1 else 0)
  }

  /** The repaired list, the next unused fresh id, and the `changed` flag. */
  datatype Repaired = Repaired(items: seq<Habit>, next: nat, changed: bool)

  /** The `arr.map(...)` pass of `ensureInitialized` over one stored list. */
  function RepairList(items: seq<Habit>, next: nat): (r: Repaired)
    ensures |r.items| == |items|
    ensures r.next == next + MissingIds(items)
  {
    if items == [] then Repaired([], next, false)
    else
      var p := RepairList(items[..|items| - 1], next);
      var h := items[|items| - 1];
      Repaired(p.items + [Repair(h, FreshId(p.next))],
               if h.id == "" then p.next + 1 else p.next,
               p.changed || NeedsWrite(h))
  }

  /** Every item comes out repaired from the item at its position. */
  lemma {:induction false} RepairListRepairs(items: seq<Habit>, next: nat)
    ensures forall i :: 0 <= i < |items| ==> RepairedFrom(items[i], RepairList(items, next).items[i])
  {
    if items != [] {
      var n := |items| - 1;
      var pre := items[..n];
      var p := RepairList(pre, next);
      RepairListRepairs(pre, next);
      assert RepairList(items, next).items == p.items + [Repair(items[n], FreshId(p.next))];
      assert forall i :: 0 <= i < n ==> pre[i] == items[i];
    }
  }

  /** The list is written back exactly when some item lacked an id or a `done` flag. */
  lemma {:induction false} RepairListChanged(items: seq<Habit>, next: nat)
    ensures RepairList(items, next).changed <==> exists i :: 0 <= i < |items| && NeedsWrite(items[i])
  {
    if items != [] {
      var pre := items[..|items| - 1];
      RepairListChanged(pre, next);
      assert forall i :: 0 <= i < |pre| ==> pre[i] == items[i];
    }
  }

  /** An item that lacked an id gets the fresh id numbered after the items before it that lacked one. */
  lemma {:induction false} RepairListIdAt(items: seq<Habit>, next: nat, i: nat)
    requires i < |items| && items[i].id == ""
    ensures RepairList(items, next).items[i].id == FreshId(next + MissingIds(items[..i]))
    decreases |items|
  {
    var n := |items| - 1;
    var pre := items[..n];
    var p := RepairList(pre, next);
    var r := p.items + [Repair(items[n], FreshId(p.next))];
    assert RepairList(items, next).items == r;
    if i < n {
      assert pre[..i] == items[..i] && pre[i] == items[i];
      RepairListIdAt(pre, next, i);
      assert r[i] == p.items[i];
    } else {
      assert items[..i] == pre;
      assert r[i].id == FreshId(next + MissingIds(pre));
    }
  }

  /** Each item lacking an id before j leaves one fewer fresh id for the items after it. */
  lemma {:induction false} MissingIdsMonotone(items: seq<Habit>, i: nat, j: nat)
    requires i < j <= |items| && items[i].id == ""
    ensures MissingIds(items[..i]) < MissingIds(items[..j])
    decreases j
  {
    var s := items[..j];
    assert s[..|s| - 1] == items[..j - 1];
    if j - 1 > i {
      MissingIdsMonotone(items, i, j - 1);
      MissingIdsGrow(items[..j - 1], items[j - 1]);
      assert items[..j - 1] + [items[j - 1]] == items[..j];
    } else {
      assert items[..j - 1] == items[..i];
    }
  }

  lemma MissingIdsGrow(s: seq<Habit>, h: Habit)
    ensures MissingIds(s) <= MissingIds(s + [h])
  {
    assert (s + [h])[..|s|] == s;
  }

  /** Two items that both lacked an id receive different fresh ids. */
  lemma RepairFreshDistinct(items: seq<Habit>, next: nat, i: nat, j: nat)
    requires i < j < |items| && items[i].id == "" && items[j].id == ""
    ensures RepairList(items, next).items[i].id != RepairList(items, next).items[j].id
  {
    var a, b := next + MissingIds(items[..i]), next + MissingIds(items[..j]);
    MissingIdsMonotone(items, i, j);
    RepairListIdAt(items, next, i);
    RepairListIdAt(items, next, j);
    if FreshId(a) == FreshId(b) {
      FreshIdInjective(a, b);
    }
  }

  /** The habit lists together with the state of the fresh-id supply. */
  datatype HabitState = HabitState(lists: Lists, next: nat)

  /**
   * `ensureInitialized` for one period: an absent key gets a copy of the
   * period's defaults; a present list is repaired and written back only when
   * `changed` is set.
   */
  function InitPeriod(s: HabitState, p: string): HabitState
    requires p in Periods
  {
    var key := PeriodKey(p);
    if key !in s.lists then HabitState(s.lists[key := DefaultsFor(p)], s.next)
    else
      var r := RepairList(s.lists[key], s.next);
      HabitState(if r.changed then s.lists[key := r.items] else s.lists, r.next)
  }

  /** `ensureInitialized` over the first k periods, in order. */
  function InitUpTo(s: HabitState, k: nat): HabitState
    requires k <= |Periods|
  {
    if k == 0 then s else InitPeriod(InitUpTo(s, k - 1), Periods[k - 1])
  }

  /** An item that `ensureInitialized` has nothing left to do for. */
  predicate Settled(h: Habit) {
    h.id != "" && h.done.Some?
  }

  predicate AllSettled(items: seq<Habit>) {
    forall i :: 0 <= i < |items| ==> Settled(items[i])
  }

  /** One period's pass never touches another key. */
  lemma InitPeriodKeeps(s: HabitState, p: string, key: string)
    requires p in Periods && key != PeriodKey(p)
    ensures key in InitPeriod(s, p).lists <==> key in s.lists
    ensures key in s.lists ==> InitPeriod(s, p).lists[key] == s.lists[key]
  {
  }

  /** After one period's pass its key exists and each of its items has an id and a done flag. */
  lemma InitPeriodSettles(s: HabitState, p: string)
    requires p in Periods
    ensures PeriodKey(p) in InitPeriod(s, p).lists
    ensures AllSettled(InitPeriod(s, p).lists[PeriodKey(p)])
  {
    var key := PeriodKey(p);
    if key in s.lists {
      RepairListChanged(s.lists[key], s.next);
      RepairListRepairs(s.lists[key], s.next);
    }
  }

  /** A period whose list is present and settled is left exactly as it is. */
  lemma InitPeriodSettledNoop(s: HabitState, p: string)
    requires p in Periods && PeriodKey(p) in s.lists && AllSettled(s.lists[PeriodKey(p)])
    ensures InitPeriod(s, p) == s
  {
    var items := s.lists[PeriodKey(p)];
    RepairListChanged(items, s.next);
    assert MissingIds(items) == 0 by {
      NoMissingIds(items);
    }
  }

  lemma {:induction false} NoMissingIds(items: seq<Habit>)
    requires forall i :: 0 <= i < |items| ==> items[i].id != ""
    ensures MissingIds(items) == 0
  {
    if items != [] {
      NoMissingIds(items[..|items| - 1]);
    }
  }

  /** After `ensureInitialized` over k periods, each of their keys is present and every item there has an id and a done flag. */
  lemma {:induction false} InitUpToSettles(s: HabitState, k: nat)
    requires k <= |Periods|
    ensures forall i :: 0 <= i < k ==>
      PeriodKey(Periods[i]) in InitUpTo(s, k).lists && AllSettled(InitUpTo(s, k).lists[PeriodKey(Periods[i])])
  {
    if k > 0 {
      var prev := InitUpTo(s, k - 1);
      var last := PeriodKey(Periods[k - 1]);
      InitUpToSettles(s, k - 1);
      InitPeriodSettles(prev, Periods[k - 1]);
      forall i | 0 <= i < k - 1
        ensures PeriodKey(Periods[i]) in InitUpTo(s, k).lists && AllSettled(InitUpTo(s, k).lists[PeriodKey(Periods[i])])
      {
        PeriodKeysDistinct(i, k - 1);
        InitPeriodKeeps(prev, Periods[k - 1], PeriodKey(Periods[i]));
      }
    }
  }

  /** Different periods are stored under different keys. */
  lemma PeriodKeysDistinct(i: nat, j: nat)
    requires i < j < |Periods|
    ensures PeriodKey(Periods[i]) != PeriodKey(Periods[j])
  {
    assert PeriodKey(Periods[i])[7] != PeriodKey(Periods[j])[7];
  }

  /** `ensureInitialized` never adds, drops or changes a key other than the three period keys. */
  lemma {:induction false} InitUpToKeepsOthers(s: HabitState, k: nat, key: string)
    requires k <= |Periods| && key !in TrackerKeys
    ensures key in InitUpTo(s, k).lists <==> key in s.lists
    ensures key in s.lists ==> InitUpTo(s, k).lists[key] == s.lists[key]
  {
    if k > 0 {
      TrackerKeysArePeriodKeys();
      assert key != PeriodKey(Periods[k - 1]);
      InitUpToKeepsOthers(s, k - 1, key);
      InitPeriodKeeps(InitUpTo(s, k - 1), Periods[k - 1], key);
    }
  }

  /** `ensureInitialized` is idempotent: a second run changes neither the lists nor the id supply. */
  lemma {:induction false} InitIdempotent(s: HabitState, k: nat)
    requires k <= |Periods|
    requires forall i :: 0 <= i < k ==> PeriodKey(Periods[i]) in s.lists && AllSettled(s.lists[PeriodKey(Periods[i])])
    ensures InitUpTo(s, k) == s
  {
    if k > 0 {
      InitIdempotent(s, k - 1);
      InitPeriodSettledNoop(s, Periods[k - 1]);
    }
  }

  lemma InitTwice(s: HabitState)
    ensures InitUpTo(InitUpTo(s, |Periods|), |Periods|) == InitUpTo(s, |Periods|)
  {
    InitUpToSettles(s, |Periods|);
    InitIdempotent(InitUpTo(s, |Periods|), |Periods|);
  }

  // ---------- resetToday ----------

  /** `arr.forEach(h => { h.done = false; })`. */
  function ClearDone(items: seq<Habit>): seq<Habit> {
    seq(|items|, i requires 0 <= i < |items| => items[i].(done := Some(false)))
  }

  /** `resetToday`'s loop over the first k periods: each list (empty when absent) is cleared and written. */
  function ResetUpTo(lists: Lists, k: nat): Lists
    requires k <= |Periods|
  {
    if k == 0 then lists
    else
      var prev := ResetUpTo(lists, k - 1);
      var key := PeriodKey(Periods[k - 1]);
      prev[key := ClearDone(ListOr(prev, key))]
  }

  /**
   * The reset keeps the length, the order and every other field of each
   * period's list and leaves no habit done in it. A period key that was absent
   * is written as an empty list.
   */
  lemma {:induction false} ResetSpec(lists: Lists, k: nat)
    requires k <= |Periods|
    ensures forall i :: 0 <= i < k ==> ClearedAt(lists, ResetUpTo(lists, k), PeriodKey(Periods[i]))
  {
    if k > 0 {
      var prev := ResetUpTo(lists, k - 1);
      var last := PeriodKey(Periods[k - 1]);
      ResetSpec(lists, k - 1);
      forall i | 0 <= i < k - 1 ensures last != PeriodKey(Periods[i]) {
        PeriodKeysDistinct(i, k - 1);
      }
      ResetKeepsOthers(lists, k - 1, last);
      assert ResetUpTo(lists, k) == prev[last := ClearDone(ListOr(prev, last))];
    }
  }

  /** A key none of the first k periods uses is left as it was by the reset. */
  lemma {:induction false} ResetKeepsOthers(lists: Lists, k: nat, key: string)
    requires k <= |Periods|
    requires forall i :: 0 <= i < k ==> key != PeriodKey(Periods[i])
    ensures key in ResetUpTo(lists, k) <==> key in lists
    ensures key in lists ==> ResetUpTo(lists, k)[key] == lists[key]
  {
    if k > 0 {
      ResetKeepsOthers(lists, k - 1, key);
    }
  }

  /**
   * The list under key after a reset has the length, the order and every other
   * field of the list before it, with no habit done; an absent list is written
   * as an empty one.
   */
  predicate ClearedAt(before: Lists, after: Lists, key: string) {
    && key in after && |after[key]| == |ListOr(before, key)|
    && forall j :: 0 <= j < |ListOr(before, key)| ==> after[key][j] == ListOr(before, key)[j].(done := Some(false))
  }

  // ---------- areAllHabitsDoneToday ----------

  /** `arr.some(h => !h.done)`. */
  function SomeUndone(items: seq<Habit>): (b: bool)
    ensures b <==> exists i :: 0 <= i < |items| && !IsDone(items[i])
  {
    if items == [] then false
    else !IsDone(items[0]) || (assert forall i :: 0 < i < |items| ==> items[i] == items[1..][i - 1]; SomeUndone(items[1..]))
  }

  /** The scan for an unfinished habit in the lists under the given keys. */
  function AnyUndone(lists: Lists, keys: seq<string>): bool {
    if keys == [] then false
    else (keys[0] in lists && SomeUndone(lists[keys[0]])) || AnyUndone(lists, keys[1..])
  }

  /** `anyFound`: some list under the given keys is a non-empty array. */
  function AnyFound(lists: Lists, keys: seq<string>): bool {
    if keys == [] then false
    else (keys[0] in lists && |lists[keys[0]]| > 0) || AnyFound(lists, keys[1..])
  }

  /** The keys `areAllHabitsDoneToday` inspects: the three periods, then the legacy list. */
  const BridgeKeys: seq<string> := TrackerKeys + [FallbackKey]

  /**
   * `areAllHabitsDoneToday`: it answers false as soon as a list holds an
   * unfinished habit, and otherwise true exactly when some list is non-empty.
   */
  function AllHabitsDone(lists: Lists): (b: bool)
    ensures b <==>
      (exists k :: k in BridgeKeys && k in lists && |lists[k]| > 0)
      && (forall k, i :: k in BridgeKeys && k in lists && 0 <= i < |lists[k]| ==> IsDone(lists[k][i]))
  {
    AnyUndoneSpec(lists, BridgeKeys);
    AnyFoundSpec(lists, BridgeKeys);
    !AnyUndone(lists, BridgeKeys) && AnyFound(lists, BridgeKeys)
  }

  lemma {:induction false} AnyUndoneSpec(lists: Lists, keys: seq<string>)
    ensures AnyUndone(lists, keys) <==> exists k, i :: k in keys && k in lists && 0 <= i < |lists[k]| && !IsDone(lists[k][i])
  {
    if keys != [] {
      AnyUndoneSpec(lists, keys[1..]);
      assert forall k :: k in keys <==> k == keys[0] || k in keys[1..];
    }
  }

  lemma {:induction false} AnyFoundSpec(lists: Lists, keys: seq<string>)
    ensures AnyFound(lists, keys) <==> exists k :: k in keys && k in lists && |lists[k]| > 0
  {
    if keys != [] {
      AnyFoundSpec(lists, keys[1..]);
      assert forall k :: k in keys <==> k == keys[0] || k in keys[1..];
    }
  }

  /**
   * Right after a reset the day can only count as all done through the legacy
   * list: every period list is then either empty or unfinished.
   */
  lemma ResetBlocksAllDone(lists: Lists)
    requires AllHabitsDone(ResetUpTo(lists, |Periods|))
    ensures forall i :: 0 <= i < |Periods| ==> ListOr(lists, PeriodKey(Periods[i])) == []
  {
    var r := ResetUpTo(lists, |Periods|);
    ResetSpec(lists, |Periods|);
    TrackerKeysArePeriodKeys();
    forall i | 0 <= i < |Periods| ensures ListOr(lists, PeriodKey(Periods[i])) == [] {
      var key := PeriodKey(Periods[i]);
      assert key in BridgeKeys;
      assert |r[key]| > 0 ==> !IsDone(r[key][0]);
    }
  }

  // ---------- updateTrackerUI ----------

  /** `arr.filter(x => x.done).length`. */
  function DoneCount(items: seq<Habit>): (n: nat)
    ensures n <= |items|
    ensures n == |items| <==> forall i :: 0 <= i < |items| ==> IsDone(items[i])
    ensures n == 0 <==> forall i :: 0 <= i < |items| ==> !IsDone(items[i])
  {
    if items == [] then 0
    else
      var pre := items[..|items| - 1];
      assert forall i :: 0 <= i < |pre| ==> pre[i] == items[i];
      DoneCount(pre) + (if IsDone(items[|items| - 1]) then 1 else 0)
  }

  /** Counting the done habits of two lists one after the other counts those of their concatenation. */
  lemma {:induction false} DoneCountConcat(a: seq<Habit>, b: seq<Habit>)
    ensures DoneCount(a + b) == DoneCount(a) + DoneCount(b)
  {
    if b == [] {
      assert a + b == a;
    } else {
      var b' := b[..|b| - 1];
      assert (a + b)[..|a + b| - 1] == a + b';
      DoneCountConcat(a, b');
    }
  }

  /**
   * `Math.round((done / total) * 100)`, or 0 when there are no habits: the
   * integer nearest to the percentage, halves rounded up.
   */
  function Percent(done: nat, total: nat): (p: nat)
    ensures total == 0 ==> p == 0
    ensures total > 0 ==> 2 * total * p <= 200 * done + total < 2 * total * (p + 1)
    ensures done <= total ==> p <= 100
  {
    if total == 0 then 0
    else
      var p := (200 * done + total) / (2 * total);
      DivBounds(200 * done + total, 2 * total);
      if done <= total && p > 100 then
        MulLe(101, p, 2 * total);
        p
      else p
  }

  /** Integer division rounds down: the quotient times the divisor is within one divisor of the dividend. */
  lemma DivBounds(n: nat, d: nat)
    requires d > 0
    ensures d * (n / d) <= n < d * (n / d + 1)
  {
    assert n == d * (n / d) + n % d;
    assert d * (n / d + 1) == d * (n / d) + d;
  }

  /** The percentage is 100 exactly when every habit is done, and 0 when none is. */
  lemma PercentExtremes(done: nat, total: nat)
    requires 0 < total && done <= total
    ensures Percent(done, total) == 100 <==> 200 * done >= 199 * total
    ensures done == total ==> Percent(done, total) == 100
    ensures done == 0 ==> Percent(done, total) == 0
  {
    var p := Percent(done, total);
    if p <= 99 {
      MulLe(p + 1, 100, 2 * total);
    } else {
      MulLe(100, p, 2 * total);
    }
    if p >= 1 {
      MulLe(1, p, 2 * total);
    }
  }

  lemma MulLe(a: int, b: int, c: nat)
    requires a <= b
    ensures c * a <= c * b
  {
  }

  datatype Mood = Celebrate | Encourage | Motivate

  /** The mood chosen from the percentage. */
  function MoodFor(pct: int): (m: Mood)
    ensures m == Celebrate <==> pct >= 90
    ensures m == Encourage <==> 50 <= pct < 90
    ensures m == Motivate <==> pct < 50
  {
    if pct >= 90 then Celebrate else if pct >= 50 then Encourage else Motivate
  }

  /** `moodText`. */
  function MoodText(m: Mood): string {
    match m
    case Celebrate => "\U{2014} Outstanding! You crushed it today! \U{1F389}"
    case Encourage => "\U{2014} Great work! Keep the momentum \U{1F4AA}"
    case Motivate => "\U{2014} Small steps \U{2014} big results. Start with one habit \U{2728}"
  }
}
