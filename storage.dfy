/**
 * The browser's `localStorage` as the two pages see it, with every value
 * already parsed from JSON: one field per family of keys.
 */
module Storage {
  import opened Ledger
  import opened Habits

  /** `NOTIFIED_KEY`, the prefix of the per-day reminder maps. */
  const NotifiedPrefix: string := "notified_"

  class Store {
    /** `completedDays_byMonth` as parsed; an absent key reads as `{}`, the empty map. */
    var completed: RawLedger
    /** `unlockedBadges`; an absent key reads as `[]`. */
    var badges: seq<int>
    /** The habit lists under `habits_<period>` and the legacy `habits` key. */
    var habits: Lists
    /** `notified_<day>` keys, each holding the set of habit ids marked that day. */
    var notified: map<string, set<string>>
    /** The position of the fresh-id supply that stands for `uid()`. */
    var nextId: nat

    constructor (completed: RawLedger, badges: seq<int>, habits: Lists, notified: map<string, set<string>>, nextId: nat)
      ensures this.completed == completed && this.badges == badges && this.habits == habits
      ensures this.notified == notified && this.nextId == nextId
    {
      this.completed := completed;
      this.badges := badges;
      this.habits := habits;
      this.notified := notified;
      this.nextId := nextId;
    }
  }
}
