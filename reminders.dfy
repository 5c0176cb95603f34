/**
 * Habit reminders (`checkReminders`): once per minute every habit whose time is
 * the current time and whose id is not yet in the day's notified map is marked
 * there, and a reminder goes out for it when it is not done. The map makes each
 * habit's reminder go out at most once per day.
 */
module Reminders {
  import opened Habits

  /** The reminders sent by a pass, in order, and the notified ids after it. */
  datatype Pass = Pass(sent: seq<Habit>, notified: set<string>)

  /** The `arr.forEach` body of `checkReminders` over one list. */
  function RemindList(items: seq<Habit>, current: string, notified: set<string>): (r: Pass)
    ensures notified <= r.notified
  {
    if items == [] then Pass([], notified)
    else
      var p := RemindList(items[..|items| - 1], current, notified);
      var h := items[|items| - 1];
      if h.time == current && h.id !in p.notified then
        Pass(if !IsDone(h) then p.sent + [h] else p.sent, p.notified + {h.id})
      else p
  }

  /** A habit is due at position i: its time is now and neither the map nor an earlier due habit holds its id. */
  predicate FirstDue(items: seq<Habit>, i: int, current: string, notified: set<string>)
    requires 0 <= i < |items|
  {
    && items[i].time == current && items[i].id !in notified
    && forall j :: 0 <= j < i && items[j].time == current ==> items[j].id != items[i].id
  }

  /** The map afterwards holds exactly the old ids and the ids of every habit whose time is now. */
  lemma {:induction false} RemindMarks(items: seq<Habit>, current: string, notified: set<string>)
    ensures forall id :: id in RemindList(items, current, notified).notified <==>
      id in notified || exists i :: 0 <= i < |items| && items[i].time == current && items[i].id == id
  {
    if items != [] {
      var pre := items[..|items| - 1];
      RemindMarks(pre, current, notified);
      assert forall i :: 0 <= i < |pre| ==> pre[i] == items[i];
    }
  }

  /**
   * Every reminder sent is for a habit of the list that is not done, whose time
   * is now and whose id was not yet notified; no two reminders of one pass share
   * an id; and the ids reminded are all in the map afterwards.
   */
  lemma {:induction false} RemindSound(items: seq<Habit>, current: string, notified: set<string>)
    ensures var r := RemindList(items, current, notified);
      && (forall h :: h in r.sent ==> h in items && h.time == current && h.id !in notified && !IsDone(h))
      && (forall a, b :: 0 <= a < b < |r.sent| ==> r.sent[a].id != r.sent[b].id)
      && (forall h :: h in r.sent ==> h.id in r.notified)
  {
    if items != [] {
      var pre := items[..|items| - 1];
      var p := RemindList(pre, current, notified);
      RemindSound(pre, current, notified);
      assert forall h :: h in pre ==> h in items;
    }
  }

  /** Conversely every due habit that is not done gets its reminder. */
  lemma RemindComplete(items: seq<Habit>, current: string, notified: set<string>)
    ensures forall i :: 0 <= i < |items| && FirstDue(items, i, current, notified) && !IsDone(items[i]) ==>
      items[i] in RemindList(items, current, notified).sent
  {
    forall i | 0 <= i < |items| && FirstDue(items, i, current, notified) && !IsDone(items[i])
      ensures items[i] in RemindList(items, current, notified).sent
    {
      RemindCompleteAt(items, current, notified, i);
    }
  }

  /** `RemindComplete` at one position. */
  lemma {:induction false} RemindCompleteAt(items: seq<Habit>, current: string, notified: set<string>, i: nat)
    requires i < |items| && FirstDue(items, i, current, notified) && !IsDone(items[i])
    ensures items[i] in RemindList(items, current, notified).sent
    decreases |items|
  {
    var n := |items| - 1;
    var pre := items[..n];
    var p := RemindList(pre, current, notified);
    var r := RemindList(items, current, notified);
    assert forall h :: h in p.sent ==> h in r.sent;
    if i < n {
      assert FirstDue(pre, i, current, notified) by {
        assert pre[i] == items[i];
        assert forall j :: 0 <= j < i ==> pre[j] == items[j];
      }
      RemindCompleteAt(pre, current, notified, i);
    } else {
      RemindMarks(pre, current, notified);
      assert forall j :: 0 <= j < n ==> pre[j] == items[j];
      assert items[n].id !in p.notified;
    }
  }

  /**
   * At most once per day: a later pass from the map this pass left behind, at
   * any time and over any lists, sends no reminder for an id this pass marked.
   */
  lemma NoSecondReminder(items: seq<Habit>, current: string, notified: set<string>,
                         later: seq<Habit>, laterTime: string, laterMap: set<string>)
    requires RemindList(items, current, notified).notified <= laterMap
    ensures forall h :: h in RemindList(later, laterTime, laterMap).sent ==> h.id !in RemindList(items, current, notified).notified
  {
    RemindSound(later, laterTime, laterMap);
  }

  /** A pass over two lists one after the other is a pass over their concatenation. */
  lemma {:induction false} RemindConcat(a: seq<Habit>, b: seq<Habit>, current: string, notified: set<string>)
    ensures var p := RemindList(a, current, notified);
      var q := RemindList(b, current, p.notified);
      RemindList(a + b, current, notified) == Pass(p.sent + q.sent, q.notified)
  {
    if b != [] {
      var b' := b[..|b| - 1];
      assert (a + b)[..|a + b| - 1] == a + b';
      RemindConcat(a, b', current, notified);
    } else {
      assert a + b == a;
    }
  }

  /** The `PERIODS.forEach` loop of `checkReminders` over the first k periods. */
  function RemindUpTo(lists: Lists, current: string, notified: set<string>, k: nat): Pass
    requires k <= |Periods|
  {
    if k == 0 then Pass([], notified)
    else
      var p := RemindUpTo(lists, current, notified, k - 1);
      var q := RemindList(ListOr(lists, PeriodKey(Periods[k - 1])), current, p.notified);
      Pass(p.sent + q.sent, q.notified)
  }

  /** The loop over periods is one pass over all their habits, so the lemmas above cover it. */
  lemma {:induction false} RemindUpToIsPass(lists: Lists, current: string, notified: set<string>, k: nat)
    requires k <= |Periods|
    ensures RemindUpTo(lists, current, notified, k) == RemindList(AllItems(lists, k), current, notified)
  {
    if k > 0 {
      RemindUpToIsPass(lists, current, notified, k - 1);
      RemindConcat(AllItems(lists, k - 1), ListOr(lists, PeriodKey(Periods[k - 1])), current, notified);
    }
  }
}
