/**
 * The completion ledger stored under `completedDays_byMonth`: a JSON object from
 * month keys to lists of completed day numbers, and the normalisation every read
 * and every write of it goes through (`normalizeCompletedStore`).
 */
module Ledger {
  import opened Calendar

  /** One raw list entry: `Number(x)` is finite (kept as its value) or it is not. */
  datatype Entry = Num(n: int) | NonNumeric

  /**
   * The raw value under one month key: a falsy JSON value (null, 0, "", false),
   * some other truthy non-array value, or an array of entries.
   */
  datatype RawDays = Falsy | NonArray | Days(entries: seq<Entry>)

  /** The ledger as parsed from storage, before normalisation. */
  type RawLedger = map<string, RawDays>

  /** A ledger in memory: month key to day numbers. */
  type Ledger = map<string, seq<int>>

  predicate Sorted(s: seq<int>) {
    forall i, j :: 0 <= i < j < |s| ==> s[i] <= s[j]
  }

  predicate StrictlySorted(s: seq<int>) {
    forall i, j :: 0 <= i < j < |s| ==> s[i] < s[j]
  }

  predicate NoDup(s: seq<int>) {
    forall i, j :: 0 <= i < j < |s| ==> s[i] != s[j]
  }

  /** Every list of the ledger is sorted and free of duplicates. */
  predicate NormalForm(l: Ledger) {
    forall k :: k in l ==> StrictlySorted(l[k])
  }

  /** `raw.map(x => Number(x)).filter(n => Number.isFinite(n))`. */
  function Numbers(es: seq<Entry>): (r: seq<int>)
    ensures forall n :: n in r <==> Num(n) in es
  {
    if es == [] then []
    else (if es[0].Num? then [es[0].n] else []) + Numbers(es[1..])
  }

  /** `Array.from(new Set(xs))`: first occurrences, in order. */
  function Dedupe(xs: seq<int>): (r: seq<int>)
    ensures NoDup(r)
    ensures forall n :: n in r <==> n in xs
  {
    if xs == [] then []
    else
      var p := Dedupe(xs[..|xs| - 1]);
      var x := xs[|xs| - 1];
      assert forall n :: n in xs <==> n in xs[..|xs| - 1] || n == x;
      if x in p then p else p + [x]
  }

  /** Insertion of x into a sorted list: the insertion step of `SortAsc`. */
  function Insert(x: int, s: seq<int>): (r: seq<int>)
    requires Sorted(s)
    ensures Sorted(r)
    ensures multiset(r) == multiset(s) + multiset{x}
  {
    if s == [] || x <= s[0] then [x] + s
    else
      var t := Insert(x, s[1..]);
      assert s == [s[0]] + s[1..];
      HeadBelowRest(s);
      forall i | 0 <= i < |t| ensures s[0] <= t[i] {
        assert t[i] in multiset(t);
      }
      [s[0]] + t
  }

  /** In a sorted list the head is at most every later value. */
  lemma HeadBelowRest(s: seq<int>)
    requires Sorted(s) && s != []
    ensures forall y :: y in multiset(s[1..]) ==> s[0] <= y
  {
    forall y | y in multiset(s[1..]) ensures s[0] <= y {
      var i :| 0 <= i < |s[1..]| && s[1..][i] == y;
      assert s[i + 1] == y;
    }
  }

  /** `.sort((a, b) => a - b)`: ascending numeric order. */
  function SortAsc(xs: seq<int>): (r: seq<int>)
    ensures Sorted(r)
    ensures multiset(r) == multiset(xs)
  {
    if xs == [] then []
    else
      assert xs == [xs[0]] + xs[1..];
      Insert(xs[0], SortAsc(xs[1..]))
  }

  /** A sequence is duplicate-free exactly when no value occurs in it twice. */
  lemma NoDupCount(s: seq<int>)
    ensures NoDup(s) <==> forall x :: multiset(s)[x] <= 1
  {
    if NoDup(s) {
      NoDupCountBound(s);
    } else {
      var i, j :| 0 <= i < j < |s| && s[i] == s[j];
      TwiceCounted(s, i, j);
    }
  }

  lemma {:induction false} NoDupCountBound(s: seq<int>)
    requires NoDup(s)
    ensures forall x :: multiset(s)[x] <= 1
  {
    if s != [] {
      var t := s[1..];
      assert s == [s[0]] + t;
      assert NoDup(t) by {
        forall i, j | 0 <= i < j < |t| ensures t[i] != t[j] {
          assert t[i] == s[i + 1] && t[j] == s[j + 1];
        }
      }
      NoDupCountBound(t);
      assert s[0] !in t by {
        forall i | 0 <= i < |t| ensures t[i] != s[0] {
          assert t[i] == s[i + 1];
        }
      }
    }
  }

  /** A value at two positions occurs at least twice. */
  lemma TwiceCounted(s: seq<int>, i: nat, j: nat)
    requires i < j < |s| && s[i] == s[j]
    ensures multiset(s)[s[i]] >= 2
  {
    assert s == s[..j] + s[j..];
    assert s[i] in s[..j];
    assert s[j] in s[j..];
    assert multiset(s)[s[i]] == multiset(s[..j])[s[i]] + multiset(s[j..])[s[i]];
  }

  /** The list one month key normalises to. */
  function Canon(es: seq<Entry>): (r: seq<int>)
    ensures StrictlySorted(r)
    ensures forall n :: n in r <==> Num(n) in es
  {
    var u := Dedupe(Numbers(es));
    var r := SortAsc(u);
    NoDupCount(u);
    NoDupCount(r);
    assert forall n :: n in r <==> n in multiset(u);
    r
  }

  /**
   * `normalizeCompletedStore`: a falsy value becomes the empty list, a truthy
   * non-array value is dropped with its key, and an array keeps its finite
   * numbers, each once, in ascending order.
   */
  function Normalize(raw: RawLedger): (l: Ledger)
    ensures forall k :: k in l <==> k in raw && !raw[k].NonArray?
    ensures NormalForm(l)
    ensures forall k, n :: k in l ==> (n in l[k] <==> raw[k].Days? && Num(n) in raw[k].entries)
  {
    map k | k in raw && !raw[k].NonArray? :: if raw[k].Falsy? then [] else Canon(raw[k].entries)
  }

  /** A list of numbers written out as JSON entries. */
  function Entries(xs: seq<int>): (es: seq<Entry>)
    ensures |es| == |xs| && forall i :: 0 <= i < |xs| ==> es[i] == Num(xs[i])
  {
    seq(|xs|, i requires 0 <= i < |xs| => Num(xs[i]))
  }

  /** `JSON.stringify` of an in-memory ledger as it is read back by `JSON.parse`. */
  function Embed(l: Ledger): RawLedger {
    map k | k in l :: Days(Entries(l[k]))
  }

  /** A sorted duplicate-free list is determined by the set of its values. */
  lemma {:induction false} StrictlySortedUnique(a: seq<int>, b: seq<int>)
    requires StrictlySorted(a) && StrictlySorted(b)
    requires forall n :: n in a <==> n in b
    ensures a == b
    decreases |a|
  {
    assert a != [] ==> a[0] in a && a[0] in b;
    assert b != [] ==> b[0] in b && b[0] in a;
    if a != [] && b != [] {
      assert a[0] == b[0];
      forall n ensures n in a[1..] <==> n in b[1..] {
        if n in a[1..] {
          assert n in b && n != b[0];
        }
        if n in b[1..] {
          assert n in a && n != a[0];
        }
      }
      StrictlySortedUnique(a[1..], b[1..]);
      assert a == [a[0]] + a[1..] && b == [b[0]] + b[1..];
    }
  }

  /** Writing a list that is already normal and reading it back changes nothing. */
  lemma CanonOfSorted(xs: seq<int>)
    requires StrictlySorted(xs)
    ensures Canon(Entries(xs)) == xs
  {
    var es := Entries(xs);
    forall n ensures n in Canon(es) <==> n in xs {
      if Num(n) in es {
        var i :| 0 <= i < |es| && es[i] == Num(n);
        assert xs[i] == n;
      }
      if n in xs {
        var i :| 0 <= i < |xs| && xs[i] == n;
        assert es[i] == Num(n);
      }
    }
    StrictlySortedUnique(Canon(es), xs);
  }

  /** A ledger in normal form survives a write followed by a read unchanged. */
  lemma NormalizeEmbed(l: Ledger)
    requires NormalForm(l)
    ensures Normalize(Embed(l)) == l
  {
    var r := Normalize(Embed(l));
    forall k | k in l ensures r[k] == l[k] {
      CanonOfSorted(l[k]);
    }
  }

  /** Normalisation is idempotent: normalising, writing and normalising again adds nothing. */
  lemma NormalizeIdempotent(raw: RawLedger)
    ensures Normalize(Embed(Normalize(raw))) == Normalize(raw)
  {
    NormalizeEmbed(Normalize(raw));
  }

  /**
   * Normalisation depends only on which keys hold arrays (or falsy values) and on
   * which numbers those arrays contain: order and repetition do not matter.
   */
  lemma NormalizeOrderIndependent(raw1: RawLedger, raw2: RawLedger)
    requires forall k :: k in raw1 <==> k in raw2
    requires forall k :: k in raw1 ==> raw1[k].NonArray? == raw2[k].NonArray?
    requires forall k, n :: k in raw1 ==>
      (raw1[k].Days? && Num(n) in raw1[k].entries <==> raw2[k].Days? && Num(n) in raw2[k].entries)
    ensures Normalize(raw1) == Normalize(raw2)
  {
    var l1, l2 := Normalize(raw1), Normalize(raw2);
    forall k | k in l1 ensures l1[k] == l2[k] {
      StrictlySortedUnique(l1[k], l2[k]);
    }
  }

  /** The month's list, or the empty list for a month never written (`store[key] || []`). */
  function DaysOf(l: Ledger, key: string): seq<int> {
    if key in l then l[key] else []
  }

  /** Whether the ledger shows date d as completed. */
  predicate Completed(l: Ledger, d: Date)
    requires ValidDate(d)
  {
    d.day in DaysOf(l, MonthKey(d.year, d.month))
  }

  /** The list with the element at index i taken out (`splice(i, 1)`). */
  function RemoveAt(s: seq<int>, i: nat): (r: seq<int>)
    requires i < |s|
    ensures |r| == |s| - 1
    ensures forall k :: 0 <= k < |r| ==> r[k] == if k < i then s[k] else s[k + 1]
  {
    s[..i] + s[i + 1..]
  }

  /** `indexOf`: the first index holding x, or -1. */
  function IndexOf(s: seq<int>, x: int): (i: int)
    ensures -1 <= i < |s|
    ensures i == -1 <==> x !in s
    ensures i >= 0 ==> s[i] == x && x !in s[..i]
  {
    if s == [] then -1
    else if s[0] == x then 0
    else
      var j := IndexOf(s[1..], x);
      assert s[1..] == s[1..][..] && (j >= 0 ==> s[..j + 1] == [s[0]] + s[1..][..j]);
      if j == -1 then -1 else j + 1
  }

  /**
   * `toggleDayCompletion` on the ledger as read (l): the month's list (an empty
   * one when the key is missing) loses the day by `splice` when `indexOf` finds it
   * and gains it by `push` otherwise, and the whole ledger is normalised again
   * for writing.
   */
  function ToggleLedger(l: Ledger, key: string, day: int): Ledger {
    Normalize(Embed(l[key := Toggled(DaysOf(l, key), day)]))
  }

  /** The month's list before normalisation: `splice` of the day if `indexOf` finds it, else `push`. */
  function Toggled(cur: seq<int>, day: int): seq<int> {
    var idx := IndexOf(cur, day);
    if idx > -1 then RemoveAt(cur, idx) else cur + [day]
  }

  /** One key of a ledger after a write and a read holds the same days. */
  lemma NormalizeEmbedAt(l: Ledger, k: string)
    requires k in l
    ensures k in Normalize(Embed(l))
    ensures forall n :: n in Normalize(Embed(l))[k] <==> n in l[k]
  {
    var es := Entries(l[k]);
    assert Embed(l)[k] == Days(es);
    forall n ensures Num(n) in es <==> n in l[k] {
      if Num(n) in es {
        var i :| 0 <= i < |es| && es[i] == Num(n);
        assert l[k][i] == n;
      }
      if n in l[k] {
        var i :| 0 <= i < |l[k]| && l[k][i] == n;
        assert es[i] == Num(n);
      }
    }
  }

  /** A write and a read keep exactly the ledger's keys. */
  lemma NormalizeEmbedKeys(l: Ledger)
    ensures Normalize(Embed(l)).Keys == l.Keys
  {
    var e := Embed(l);
    assert forall k :: k in e <==> k in l;
    assert forall k :: k in e ==> e[k].Days?;
  }

  /** A key whose list is already normal comes back unchanged from a write and a read. */
  lemma NormalizeEmbedSorted(l: Ledger, k: string)
    requires k in l && StrictlySorted(l[k])
    ensures k in Normalize(Embed(l)) && Normalize(Embed(l))[k] == l[k]
  {
    assert Embed(l)[k] == Days(Entries(l[k]));
    CanonOfSorted(l[k]);
  }

  /** The month's list before normalisation: the day removed if present, appended if not. */
  lemma ToggleList(cur: seq<int>, day: int)
    requires StrictlySorted(cur)
    ensures forall n :: n in Toggled(cur, day) <==> (if day in cur then n in cur && n != day else n in cur || n == day)
  {
    var idx := IndexOf(cur, day);
    if idx > -1 {
      var next := RemoveAt(cur, idx);
      assert cur == cur[..idx] + [day] + cur[idx + 1..];
      forall n ensures n in next <==> n in cur && n != day {
        if n in cur[idx + 1..] {
          var i :| 0 <= i < |cur[idx + 1..]| && cur[idx + 1..][i] == n;
          assert cur[idx + 1 + i] == n && cur[idx] == day;
        }
        if n in cur && n != day {
          var i :| 0 <= i < |cur| && cur[i] == n;
          if i < idx {
            assert n in cur[..idx];
          } else {
            assert cur[idx + 1..][i - idx - 1] == n;
          }
        }
      }
    }
  }

  /** A toggled ledger is again in normal form and has gained at most the toggled key. */
  lemma ToggleKeepsNormal(l: Ledger, key: string, day: int)
    ensures NormalForm(ToggleLedger(l, key, day))
    ensures ToggleLedger(l, key, day).Keys == l.Keys + {key}
  {
    var l' := l[key := Toggled(DaysOf(l, key), day)];
    NormalizeEmbedKeys(l');
    assert l'.Keys == l.Keys + {key};
  }

  /**
   * Toggling flips exactly one membership: the day is in the month's list
   * afterwards iff it was not before, and every other day of that month keeps
   * its membership.
   */
  lemma ToggleFlipsOne(l: Ledger, key: string, day: int)
    requires NormalForm(l)
    ensures key in ToggleLedger(l, key, day)
    ensures day in ToggleLedger(l, key, day)[key] <==> day !in DaysOf(l, key)
    ensures forall n :: n != day ==> (n in ToggleLedger(l, key, day)[key] <==> n in DaysOf(l, key))
  {
    var cur := DaysOf(l, key);
    ToggleList(cur, day);
    NormalizeEmbedAt(l[key := Toggled(cur, day)], key);
  }

  /** Toggling one month never changes another month's list. */
  lemma ToggleOthersUnchanged(l: Ledger, key: string, day: int)
    requires NormalForm(l)
    ensures forall k :: k in l && k != key ==> k in ToggleLedger(l, key, day) && ToggleLedger(l, key, day)[k] == l[k]
  {
    var l' := l[key := Toggled(DaysOf(l, key), day)];
    forall k | k in l && k != key ensures k in ToggleLedger(l, key, day) && ToggleLedger(l, key, day)[k] == l[k] {
      NormalizeEmbedSorted(l', k);
    }
  }

  /** Toggling in terms of `DaysOf`: exactly the pair (key, day) changes membership. */
  lemma ToggleMembers(l: Ledger, key: string, day: int)
    requires NormalForm(l)
    ensures forall k, n :: n in DaysOf(ToggleLedger(l, key, day), k) <==>
      (if k == key && n == day then n !in DaysOf(l, k) else n in DaysOf(l, k))
  {
    var t := ToggleLedger(l, key, day);
    ToggleKeepsNormal(l, key, day);
    ToggleFlipsOne(l, key, day);
    ToggleOthersUnchanged(l, key, day);
    forall k, n ensures n in DaysOf(t, k) <==> (if k == key && n == day then n !in DaysOf(l, k) else n in DaysOf(l, k)) {
      if k != key && k !in l {
        assert k !in t;
      }
    }
  }

  /** Toggling the same day twice restores every membership of the ledger. */
  lemma ToggleTwiceRestores(l: Ledger, key: string, day: int)
    requires NormalForm(l)
    ensures ToggleLedger(ToggleLedger(l, key, day), key, day).Keys == l.Keys + {key}
    ensures forall k, n :: n in DaysOf(ToggleLedger(ToggleLedger(l, key, day), key, day), k) <==> n in DaysOf(l, k)
  {
    var t1 := ToggleLedger(l, key, day);
    ToggleKeepsNormal(l, key, day);
    ToggleKeepsNormal(t1, key, day);
    ToggleMembers(l, key, day);
    ToggleMembers(t1, key, day);
  }
}
