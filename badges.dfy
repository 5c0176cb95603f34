/**
 * Streak badges (`unlockedBadges`): each threshold of `BADGE_THRESHOLDS` that
 * the current streak reaches is appended once to the stored list and reported
 * as newly unlocked.
 */
module Badges {

  /** `BADGE_THRESHOLDS`: streak lengths, in days, that earn a badge. */
  const Thresholds: seq<int> := [7, 14, 30]

  predicate NoDupInts(s: seq<int>) {
    forall i, j :: 0 <= i < j < |s| ==> s[i] != s[j]
  }

  /**
   * The badge loop of `handleCompletionForDay` over thresholds ts: a threshold is
   * pushed onto the list (and onto the newly-unlocked list) when the streak
   * reaches it and the list does not hold it yet. The result is the new list
   * and the newly unlocked thresholds; the new list is the old one with exactly
   * the new ones appended.
   */
  function Unlock(badges: seq<int>, streak: int, ts: seq<int>): (r: (seq<int>, seq<int>))
    ensures r.0 == badges + r.1
  {
    if ts == [] then (badges, [])
    else
      var prev := Unlock(badges, streak, ts[..|ts| - 1]);
      var t := ts[|ts| - 1];
      if streak >= t && t !in prev.0 then (prev.0 + [t], prev.1 + [t]) else prev
  }

  /** The thresholds of ts, in order, that the streak reaches and the list lacks. */
  function Eligible(badges: seq<int>, streak: int, ts: seq<int>): seq<int> {
    if ts == [] then []
    else
      var t := ts[|ts| - 1];
      Eligible(badges, streak, ts[..|ts| - 1]) + (if streak >= t && t !in badges then [t] else [])
  }

  /** Every threshold in the reported list is one of ts that qualifies. */
  lemma {:induction false} EligibleMembers(badges: seq<int>, streak: int, ts: seq<int>)
    ensures forall t :: t in Eligible(badges, streak, ts) <==> t in ts && streak >= t && t !in badges
  {
    if ts != [] {
      EligibleMembers(badges, streak, ts[..|ts| - 1]);
      assert ts == ts[..|ts| - 1] + [ts[|ts| - 1]];
    }
  }

  /**
   * Without repeated thresholds, the newly unlocked badges are exactly the
   * thresholds the streak reaches that were not unlocked before, in threshold
   * order.
   */
  lemma {:induction false} UnlockReportsEligible(badges: seq<int>, streak: int, ts: seq<int>)
    requires NoDupInts(ts)
    ensures Unlock(badges, streak, ts).1 == Eligible(badges, streak, ts)
  {
    if ts != [] {
      var pre := ts[..|ts| - 1];
      var t := ts[|ts| - 1];
      UnlockReportsEligible(badges, streak, pre);
      EligibleMembers(badges, streak, pre);
      assert t !in pre;
      assert t in Unlock(badges, streak, pre).0 <==> t in badges;
    }
  }

  /** No badge is ever unlocked twice: a duplicate-free list stays duplicate-free. */
  lemma {:induction false} UnlockNoDup(badges: seq<int>, streak: int, ts: seq<int>)
    requires NoDupInts(badges)
    ensures NoDupInts(Unlock(badges, streak, ts).0)
  {
    if ts != [] {
      UnlockNoDup(badges, streak, ts[..|ts| - 1]);
    }
  }

  /**
   * After the loop every threshold the streak reaches is unlocked, and every
   * unlocked badge is an old one or a threshold the streak reaches.
   */
  lemma {:induction false} UnlockCovers(badges: seq<int>, streak: int, ts: seq<int>)
    ensures forall t :: t in ts && streak >= t ==> t in Unlock(badges, streak, ts).0
    ensures forall t :: t in Unlock(badges, streak, ts).0 ==> t in badges || (t in ts && streak >= t)
  {
    if ts != [] {
      UnlockCovers(badges, streak, ts[..|ts| - 1]);
      assert ts == ts[..|ts| - 1] + [ts[|ts| - 1]];
    }
  }

  /**
   * Badges are never reported twice: once a streak has unlocked its thresholds,
   * running the loop again with that streak or any shorter one unlocks nothing
   * and leaves the list as it is.
   */
  lemma UnlockSettled(badges: seq<int>, streak: int, later: int, ts: seq<int>)
    requires later <= streak
    ensures Unlock(Unlock(badges, streak, ts).0, later, ts) == (Unlock(badges, streak, ts).0, [])
  {
    var b := Unlock(badges, streak, ts).0;
    UnlockCovers(badges, streak, ts);
    NothingToUnlock(b, later, ts);
  }

  lemma {:induction false} NothingToUnlock(b: seq<int>, streak: int, ts: seq<int>)
    requires forall t :: t in ts && streak >= t ==> t in b
    ensures Unlock(b, streak, ts) == (b, [])
  {
    if ts != [] {
      assert ts[|ts| - 1] in ts;
      assert forall t :: t in ts[..|ts| - 1] ==> t in ts;
      NothingToUnlock(b, streak, ts[..|ts| - 1]);
    }
  }

  /** A 15-day streak with nothing unlocked yet unlocks 7 and 14, in that order. */
  lemma UnlockExample()
    ensures Unlock([], 15, Thresholds) == ([7, 14], [7, 14])
  {
    var e: seq<int>, t1: seq<int>, t2: seq<int> := [], [7], [7, 14];
    assert Unlock(e, 15, e) == (e, e);
    assert t1[..|t1| - 1] == e;
    var u1 := Unlock(e, 15, t1);
    assert u1.0 == [7] && u1.1 == [7];
    assert t2[..|t2| - 1] == t1;
    var u2 := Unlock(e, 15, t2);
    assert u2.0 == [7, 14] && u2.1 == [7, 14];
    assert Thresholds[..2] == t2;
  }
}
