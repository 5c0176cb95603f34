/**
 * The "top habit" of the calendar page (`determineTopHabit`): across the three
 * period lists and the legacy list, the habit name with the most done entries,
 * ties going to the name seen first.
 */
module TopHabit {
  import opened Habits

  /** `h.habit || h.title || "Unnamed"`, with no `title` field in this model. */
  function NameOf(h: Habit): string {
    if h.name != "" then h.name else "Unnamed"
  }

  /** The habits of every present list under the given keys, in key order. */
  function Pooled(lists: Lists, keys: seq<string>): seq<Habit> {
    if keys == [] then []
    else
      var k := keys[|keys| - 1];
      Pooled(lists, keys[..|keys| - 1]) + (if k in lists then lists[k] else [])
  }

  /** Some list under the given keys is present (`any`). */
  predicate AnyPresent(lists: Lists, keys: seq<string>) {
    exists k :: k in keys && k in lists
  }

  /** The names in the order the `counts` object first receives them. */
  function Names(items: seq<Habit>): (r: seq<string>)
    ensures |r| == 0 <==> |items| == 0
  {
    if items == [] then []
    else
      var pre := items[..|items| - 1];
      var n := NameOf(items[|items| - 1]);
      if n in Names(pre) then Names(pre) else Names(pre) + [n]
  }

  /** Each name is listed once, and exactly the names of the items are listed. */
  lemma {:induction false} NamesSpec(items: seq<Habit>)
    ensures forall a, b :: 0 <= a < b < |Names(items)| ==> Names(items)[a] != Names(items)[b]
    ensures forall n :: n in Names(items) <==> exists i :: 0 <= i < |items| && NameOf(items[i]) == n
  {
    if items != [] {
      var pre := items[..|items| - 1];
      NamesSpec(pre);
      assert forall i :: 0 <= i < |pre| ==> pre[i] == items[i];
    }
  }

  /** `counts[name]`: the number of done habits with that name. */
  function DoneWith(items: seq<Habit>, name: string): nat {
    if items == [] then 0
    else
      var h := items[|items| - 1];
      DoneWith(items[..|items| - 1], name) + (if NameOf(h) == name && IsDone(h) then 1 else 0)
  }

  /**
   * Position i of the name list is the top habit: no name has more done
   * entries, and every name before it has fewer (the stable sort by descending
   * count puts the first of the tied names in front).
   */
  predicate IsTopAt(items: seq<Habit>, i: int) {
    var names := Names(items);
    && 0 <= i < |names|
    && (forall j :: 0 <= j < |names| ==> DoneWith(items, names[j]) <= DoneWith(items, names[i]))
    && (forall j :: 0 <= j < i ==> DoneWith(items, names[j]) < DoneWith(items, names[i]))
  }

  /** There is at most one top position. */
  lemma TopUnique(items: seq<Habit>, i: int, j: int)
    requires IsTopAt(items, i) && IsTopAt(items, j)
    ensures i == j
  {
    var names := Names(items);
    assert DoneWith(items, names[i]) == DoneWith(items, names[j]);
  }

  /** As soon as one habit is pooled there is a top position. */
  lemma {:induction false} TopExists(items: seq<Habit>)
    requires items != []
    ensures exists i :: IsTopAt(items, i)
  {
    var names := Names(items);
    var best := FirstMax(items, names, |names|);
    assert IsTopAt(items, best);
  }

  /** The first position among the first k names that holds the largest count among them. */
  function FirstMax(items: seq<Habit>, names: seq<string>, k: nat): (b: nat)
    requires 0 < k <= |names|
    ensures b < k
    ensures forall j :: 0 <= j < k ==> DoneWith(items, names[j]) <= DoneWith(items, names[b])
    ensures forall j :: 0 <= j < b ==> DoneWith(items, names[j]) < DoneWith(items, names[b])
  {
    if k == 1 then 0
    else
      var b := FirstMax(items, names, k - 1);
      if DoneWith(items, names[k - 1]) > DoneWith(items, names[b]) then k - 1 else b
  }

  /** Names grow by the new item's name unless it was already seen. */
  lemma NamesSnoc(items: seq<Habit>, h: Habit)
    ensures Names(items + [h]) == if NameOf(h) in Names(items) then Names(items) else Names(items) + [NameOf(h)]
  {
    assert (items + [h])[..|items|] == items;
  }

  /** Counts grow by one for the new item's name when it is done. */
  lemma DoneWithSnoc(items: seq<Habit>, h: Habit, name: string)
    ensures DoneWith(items + [h], name) == DoneWith(items, name) + (if NameOf(h) == name && IsDone(h) then 1 else 0)
  {
    assert (items + [h])[..|items|] == items;
  }

  /** Pooling one more key appends that key's list. */
  lemma PooledSnoc(lists: Lists, keys: seq<string>, k: string)
    ensures Pooled(lists, keys + [k]) == Pooled(lists, keys) + (if k in lists then lists[k] else [])
  {
    assert (keys + [k])[..|keys|] == keys;
  }

  /** No present list means nothing pooled. */
  lemma {:induction false} PooledEmpty(lists: Lists, keys: seq<string>)
    requires !AnyPresent(lists, keys)
    ensures Pooled(lists, keys) == []
  {
    if keys != [] {
      assert forall k :: k in keys[..|keys| - 1] ==> k in keys;
      PooledEmpty(lists, keys[..|keys| - 1]);
    }
  }

  /** Considering one more key finds a list exactly when it is present or one was found before. */
  lemma AnyPresentSnoc(lists: Lists, keys: seq<string>, k: string)
    ensures AnyPresent(lists, keys + [k]) <==> AnyPresent(lists, keys) || k in lists
  {
    if k in lists {
      assert k in keys + [k];
    }
    if AnyPresent(lists, keys) {
      var k' :| k' in keys && k' in lists;
      assert k' in keys + [k];
    }
  }

  /** A name no pooled habit carries has no done entries. */
  lemma {:induction false} DoneWithUnseen(items: seq<Habit>, name: string)
    requires name !in Names(items)
    ensures DoneWith(items, name) == 0
  {
    if items != [] {
      var pre := items[..|items| - 1];
      NamesSpec(items);
      NamesSpec(pre);
      assert NameOf(items[|items| - 1]) != name;
      assert forall i :: 0 <= i < |pre| ==> pre[i] == items[i];
      DoneWithUnseen(pre, name);
    }
  }
}
