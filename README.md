# Habit tracker core in Dafny

This project models the logic under the two pages of a browser habit tracker. Both pages work on one synchronous key-value store (`localStorage`).

- **The calendar page** (`dailytracker.js`) keeps a *completion ledger*. The ledger maps a month key `"<year>-<month>"` to the day numbers completed in that month. The page:
  - normalises the ledger on every read and write;
  - toggles single days;
  - counts the consecutive-day *streak* backwards across month and year boundaries;
  - unlocks *badges* at streaks of 7, 14 and 30 days;
  - marks today as completed when every habit is done;
  - reports the longest run of a month, the top habit and the reflection key of a date.
- **The habit page** (`dashboard.js`) keeps three habit lists, one per period (morning, afternoon, night). It:
  - seeds and repairs the lists;
  - adds habits;
  - normalises and displays reminder times;
  - counts progress;
  - picks the quote of the day;
  - sends each habit's reminder at most once a day;
  - resets the day.

The store is the class `Storage.Store`. It has one field per family of keys, and every value is already parsed from JSON:

- the raw ledger;
- the badge list;
- the habit lists;
- the per-day notified sets;
- the position of the fresh-id supply.

Each operation that changes the store is a method over a `Store`, in the module `DailyTracker` or `Dashboard`. Each such method is proved against a specification function, and the properties are proved about those functions:

- **Ledger**: `Normalize`, `ToggleLedger`.
- **Streak**: `StreakAt`.
- **Badges**: `Unlock`.
- **Habits**: `InitUpTo`, `ResetUpTo`, `AllHabitsDone`, `Percent`.
- **Reminders**: `RemindUpTo`.
- **TopHabit**: `Names`, `DoneWith`, `IsTopAt`, plus `TallyOf` in `DailyTracker`.
- **TimeFormat**: `NormalizeTime`, `FormatTimeForDisplay`.

The loops of the source are `while` loops with invariants. Pure helpers of the source are functions.

Several inputs are parameters:

- **Captured dates.** `today` is the calendar page's date, captured once when the page loads. The habit page takes its UTC day string as a separate parameter.
- **Clock reading.** Hour and minute are parameters.
- **Form fields.** The values of the two input fields of `addNew` are parameters.
- **`uid()`.** It is a counter-based fresh-id supply: the n-th id is `"h" + n`. Distinct counter values give distinct ids.

Three behaviours of the code are easy to miss:

- **Legacy list.** `areAllHabitsDoneToday` inspects the legacy `habits` list (dailytracker.js:227-229) even when the three period lists exist, not only as a fallback.
- **Dotted suffix.** `"7:30 p.m."` is stored as `"07:30"`, a morning time. The suffix group accepts only `AM`, `PM`, `am` and `pm`, so it matches nothing here and the hour is left as typed (dashboard.js:160-167).
- **No caller.** Nothing calls `autoCompleteTodayIfAllHabitsDone` (dailytracker.js:238-245). It is modelled all the same.

## Model

| member | source | states |
|---|---|---|
| Storage.Store.constructor | dashboard.js:37-38 | the store starts with exactly the given ledger, badges, habit lists, notified sets and id position |
| Text.NatToString | dailytracker.js:130 | `String(n)` is a non-empty digit string, one digit exactly below ten |
| Text.NatToStringValue | dailytracker.js:130 | reading back the digits of `String(n)` gives n |
| Text.NatToStringInjective | dailytracker.js:130 | distinct numbers render to distinct strings |
| Text.IntToStringInjective | dailytracker.js:447 | `String` on integers, sign included, is injective |
| Text.PadStart | dashboard.js:157 | `padStart` gives max(length, width) characters, the input at the end and only pad characters before it |
| Text.Pad2Value | dashboard.js:240 | a number below 100 padded to two is two digits denoting that number |
| Text.Pad2Injective | dashboard.js:240 | two-digit padding is injective below 100 |
| Text.Pad2OfDigits | dashboard.js:157 | two digits read as a number and padded again come back unchanged |
| Text.JsRem | dashboard.js:214 | JavaScript `%` for a positive divisor: dividend = truncated quotient × divisor + remainder, with the remainder taking the dividend's sign |
| Text.TrimStart | dashboard.js:139 | `trimStart` returns a suffix not starting with whitespace |
| Text.TrimEnd | dashboard.js:139 | `trimEnd` returns a prefix not ending with whitespace |
| Text.TrimStartRemovesSpaces | dashboard.js:155 | what `trimStart` drops is whitespace only |
| Text.TrimEndRemovesSpaces | dashboard.js:155 | what `trimEnd` drops is whitespace only |
| Text.Trim | dashboard.js:139 | `trim` is no longer than its input and starts and ends with non-whitespace (or is empty) |
| Text.TrimSlice | dashboard.js:139 | `trim` is the slice of its input left after removing whitespace only, and only from the two ends |
| Text.TrimEdges | dashboard.js:155 | a string with non-whitespace at both ends is its own trim |
| Calendar.DaysInMonth | dailytracker.js:408 | a month has 28 to 31 days, 29 exactly for February of a Gregorian leap year |
| Calendar.PrevDay | dailytracker.js:256 | `setDate(getDate() - 1)` gives a valid date strictly earlier, rolling over month and year ends |
| Calendar.NextDay | dailytracker.js:256 | the following day is a valid date strictly later |
| Calendar.OrdIsLex | dailytracker.js:256 | on valid dates the day order compares year, then month, then day |
| Calendar.PrevDayImmediate | dailytracker.js:256 | no valid date lies strictly between the day before d and d, so the streak walk skips no day |
| Calendar.NextDayImmediate | dailytracker.js:256 | no valid date lies strictly between d and the day after it |
| Calendar.PrevNextInverse | dailytracker.js:256 | stepping back and stepping forward a day are inverse |
| Calendar.DaysBack | dailytracker.js:252-256 | going back k days from a valid date gives a valid date |
| Calendar.MonthKeyInjective | dailytracker.js:130 | distinct (year, month) pairs give distinct month keys, so the streak walk never reads a wrong month |
| Calendar.ReflectionKeyFormat | dailytracker.js:446-451 | `reflectionKey` is `reflection_`, the year, `-`, the month padded to two, `-`, the day padded to two |
| Calendar.ReflectionKeyFields | dailytracker.js:446-451 | the key is `reflection_`, the year and two dash-separated fields of exactly two digits whose values are the date's month and day |
| Calendar.ReflectionKeyInjective | dailytracker.js:446-451 | distinct valid dates have distinct reflection keys |
| Ledger.Numbers | dailytracker.js:112 | the kept numbers are exactly the finite numeric entries |
| Ledger.Dedupe | dailytracker.js:113 | `new Set` keeps each value once and loses none |
| Ledger.Insert | dailytracker.js:113 | inserting into a sorted list keeps it sorted and adds exactly one occurrence |
| Ledger.SortAsc | dailytracker.js:113 | the numeric sort is sorted and a permutation of its input |
| Ledger.NoDupCount | dailytracker.js:113 | a list has no duplicates exactly when every value occurs at most once in its multiset |
| Ledger.Canon | dailytracker.js:112-113 | one list normalised is strictly ascending and holds exactly the finite entries |
| Ledger.Normalize | dailytracker.js:107-117 | every key but a truthy non-array survives (a falsy value becomes `[]`; the key `__proto__` is treated as ordinary, see "Left out"), each list is strictly ascending, and holds exactly the finite entries |
| Ledger.Entries | dailytracker.js:127 | writing a list stores each number as a numeric entry, in order |
| Ledger.StrictlySortedUnique | dailytracker.js:113 | a strictly ascending list is determined by its set of values |
| Ledger.CanonOfSorted | dailytracker.js:113 | normalising a strictly ascending list changes nothing |
| Ledger.NormalizeEmbed | dailytracker.js:124-128 | writing a normal ledger and reading it back gives the same ledger |
| Ledger.NormalizeIdempotent | dailytracker.js:119-128 | normalising twice equals normalising once |
| Ledger.NormalizeOrderIndependent | dailytracker.js:109-115 | the result depends only on which finite values each key holds, not on their order or repetitions |
| Ledger.RemoveAt | dailytracker.js:212 | `splice(idx, 1)` removes the element at idx: one shorter, the elements before idx unchanged, the ones after it moved down by one in order |
| Ledger.IndexOf | dailytracker.js:211 | `indexOf` is -1 exactly when the day is absent, and otherwise the first position holding it |
| Ledger.NormalizeEmbedAt | dailytracker.js:124-128 | after a write and a read a key holds the same set of days |
| Ledger.NormalizeEmbedKeys | dailytracker.js:124-128 | a write and a read keep the set of month keys |
| Ledger.NormalizeEmbedSorted | dailytracker.js:124-128 | a strictly ascending list survives a write and a read unchanged |
| Ledger.ToggleList | dailytracker.js:211-213 | the month's list loses the day if present and gains it if absent, and is otherwise the same set |
| Ledger.ToggleKeepsNormal | dailytracker.js:214 | the toggled ledger is normalised and has the old keys plus the month key |
| Ledger.ToggleFlipsOne | dailytracker.js:206-214 | after a toggle the day is in the month exactly when it was not before; every other day of that month keeps its membership |
| Ledger.ToggleOthersUnchanged | dailytracker.js:206-214 | every other month key's list is unchanged |
| Ledger.ToggleMembers | dailytracker.js:206-214 | membership of every (month, day) pair after a toggle, in one statement |
| Ledger.ToggleTwiceRestores | dailytracker.js:206-214 | toggling the same day twice gives back the same days everywhere |
| Streak.StampsShrink | dailytracker.js:253-257 | each completed day the walk passes removes a ledger entry on or before the current day, so the `while(true)` loop ends |
| Streak.StreakIsRun | dailytracker.js:249-259 | the n days ending at d are completed and the day n days back is not |
| Streak.StreakStep | dailytracker.js:256 | a completed day extends the streak ending the day before by one |
| Streak.RunIsStreak | dailytracker.js:249-259 | conversely, a run of n completed days ending at d that is preceded by a gap is a streak of n |
| Streak.StreakBounded | dailytracker.js:249-259 | the streak never exceeds the number of ledger entries on or before d |
| Streak.StreakAcrossMonths | dailytracker.js:249-259 | 30 and 31 January plus 1 and 2 February give a streak of 4 at 2 February |
| Streak.RunEndingAtIsRun | dailytracker.js:417 | the days `cur` counts form a run ending at the current day |
| Streak.RunEndingAtIsLongest | dailytracker.js:417 | no run ending at the current day is longer than `cur` |
| Streak.RunInExtends | dailytracker.js:416 | a run found by day d is still a run later in the month |
| Badges.Unlock | dailytracker.js:265 | the new badge list is the old one followed by the newly unlocked thresholds |
| Badges.EligibleMembers | dailytracker.js:265 | a threshold is newly unlocked exactly when the streak reaches it and the list lacks it |
| Badges.UnlockReportsEligible | dailytracker.js:264-265 | `newlyUnlocked` is exactly the eligible thresholds, in threshold order |
| Badges.UnlockNoDup | dailytracker.js:265 | no badge is ever duplicated |
| Badges.UnlockCovers | dailytracker.js:265 | every reached threshold is unlocked afterwards, and nothing but old badges and reached thresholds appears |
| Badges.UnlockSettled | dailytracker.js:261-266 | a second run with a streak no larger unlocks nothing and changes nothing |
| Badges.NothingToUnlock | dailytracker.js:265 | when every reached threshold is already unlocked the list is unchanged |
| Badges.UnlockExample | dailytracker.js:14 | a streak of 15 from no badges unlocks 7 and 14 |
| Habits.TrackerKeysArePeriodKeys | dailytracker.js:17-18 | both pages name the same three period keys, and the legacy key is none of them |
| Habits.DefaultsFor | dashboard.js:14-33 | each period has four defaults, all with ids, not done and marked default |
| Habits.FreshId | dashboard.js:39 | a fresh id is never falsy |
| Habits.FreshIdInjective | dashboard.js:39 | distinct draws from the supply give distinct ids |
| Habits.Repair | dashboard.js:52-54 | the repaired item has an id, `done` and `isDefault`, keeps every field it had, and takes the fresh id when it lacked one |
| Habits.RepairList | dashboard.js:51-56 | the map keeps the length and draws one fresh id per item lacking one |
| Habits.RepairListRepairs | dashboard.js:51-56 | every item comes out repaired from the item at its position |
| Habits.RepairListChanged | dashboard.js:52-53 | `changed` is set exactly when some item lacked an id or `done` |
| Habits.RepairListIdAt | dashboard.js:52 | an item lacking an id gets the fresh id numbered after the earlier items that lacked one |
| Habits.RepairFreshDistinct | dashboard.js:52 | two repaired items receive different fresh ids |
| Habits.InitPeriodKeeps | dashboard.js:43-59 | one period's pass touches no other key |
| Habits.InitPeriodSettles | dashboard.js:45-57 | after one period's pass its key exists and every item has an id and a `done` flag |
| Habits.InitPeriodSettledNoop | dashboard.js:49-57 | a present, settled list is not written back and draws no id |
| Habits.InitUpToSettles | dashboard.js:42-60 | afterwards every period key exists and every item in it is settled |
| Habits.InitUpToKeepsOthers | dashboard.js:42-60 | no key but the three period keys is added, dropped or changed |
| Habits.InitIdempotent | dashboard.js:42-60 | on settled lists the initialisation changes neither the lists nor the id supply |
| Habits.InitTwice | dashboard.js:42-60 | running `ensureInitialized` twice equals running it once |
| Habits.PeriodKeysDistinct | dashboard.js:9-10 | different periods are stored under different keys |
| Habits.ResetSpec | dashboard.js:260-264 | every period list keeps its length, order and other fields, with `done` false everywhere; an absent list is written as `[]` |
| Habits.ResetKeepsOthers | dashboard.js:260-264 | no other key is touched by the reset |
| Habits.ResetBlocksAllDone | dashboard.js:259-264 | right after a reset the day can count as all done only through the legacy list |
| Habits.SomeUndone | dailytracker.js:224 | `some(h => !h.done)` holds exactly when an entry is not done |
| Habits.AnyUndoneSpec | dailytracker.js:221-230 | the scan finds an unfinished habit exactly when some inspected list holds one |
| Habits.AnyFoundSpec | dailytracker.js:232-234 | `anyFound` holds exactly when some inspected list is non-empty |
| Habits.AllHabitsDone | dailytracker.js:220-236 | all done exactly when some period or legacy list is non-empty and every entry of those lists is done |
| Habits.DoneCount | dashboard.js:188 | the done count is at most the length; it equals the length exactly when all are done, and is zero exactly when none is |
| Habits.DoneCountConcat | dashboard.js:185-189 | counting list by list adds up to counting the concatenation |
| Habits.Percent | dashboard.js:190 | `Math.round(done / total * 100)` is the nearest integer to the percentage (halves up), 0 for no habits, at most 100 |
| Habits.PercentExtremes | dashboard.js:190 | 100 exactly when done ≥ 99.5 % of total, so all done gives 100 and none done gives 0 |
| Habits.MoodFor | dashboard.js:197 | celebrate exactly from 90, encourage exactly from 50 below 90, motivate exactly below 50 |
| Reminders.RemindList | dashboard.js:245-253 | the notified set only grows |
| Reminders.RemindMarks | dashboard.js:251 | afterwards the set holds exactly the old ids and the ids of every habit whose time is now |
| Reminders.RemindSound | dashboard.js:246-251 | every reminder is for a habit of the list that is due now, not yet notified and not done; no two share an id; all are now marked |
| Reminders.RemindComplete | dashboard.js:246-249 | every due habit that is not done (first with its id) is reminded |
| Reminders.RemindCompleteAt | dashboard.js:246-249 | a due, unnotified habit that is not done and first with its id is among those reminded |
| Reminders.NoSecondReminder | dashboard.js:246 | a later pass from the set left behind reminds no id this pass marked |
| Reminders.RemindConcat | dashboard.js:243-254 | a pass over two lists in turn is a pass over their concatenation |
| Reminders.RemindUpToIsPass | dashboard.js:243-254 | the loop over the periods is one pass over all period habits |
| TopHabit.Names | dailytracker.js:437 | the `counts` keys are empty exactly when nothing was pooled |
| TopHabit.NamesSpec | dailytracker.js:437 | each name is listed once, and exactly the names of pooled habits are listed |
| TopHabit.FirstMax | dailytracker.js:441-442 | the position found holds the largest count, and every earlier name has a smaller one |
| TopHabit.TopUnique | dailytracker.js:441-442 | the top position is unique |
| TopHabit.TopExists | dailytracker.js:441-442 | as soon as one habit is pooled there is a top position |
| TopHabit.NamesSnoc | dailytracker.js:437 | a habit adds its name only if unseen |
| TopHabit.DoneWithSnoc | dailytracker.js:437 | a habit adds one to its name's count exactly when done |
| TopHabit.PooledSnoc | dailytracker.js:434-437 | each further present list is appended to what is pooled |
| TopHabit.PooledEmpty | dailytracker.js:440 | with no list present nothing is pooled |
| TopHabit.AnyPresentSnoc | dailytracker.js:436-437 | `any` is set exactly when some key so far holds a list |
| TopHabit.DoneWithUnseen | dailytracker.js:437 | a name no habit carries has no done entries |
| TimeFormat.PadFields | dashboard.js:157-158 | the strict branch yields a stored `HH:MM` time: a zero before a one-digit hour, otherwise the input unchanged |
| TimeFormat.PadTwo | dashboard.js:157 | `padStart(2,'0')` on a one- or two-character field puts one zero before a single character and leaves two alone |
| TimeFormat.FirstMatch | dashboard.js:160 | `match` finds the leftmost position where the expression matches, or reports none |
| TimeFormat.ColonAt | dashboard.js:160 | a match has one or two hour digits, a colon, and two minute digits |
| TimeFormat.SkipSpaces | dashboard.js:160 | `\s*` stops at the first non-whitespace character |
| TimeFormat.To24 | dashboard.js:165-166 | the 12-hour adjustment keeps a two-digit hour below 100 |
| TimeFormat.MatchBranch | dashboard.js:160-169 | the fallback returns null exactly when nothing matches, and otherwise a stored time |
| TimeFormat.NormalizeTrimmed | dashboard.js:156-169 | on trimmed text any non-null result is a stored `HH:MM` time |
| TimeFormat.TrimmedNull | dashboard.js:160-169 | trimmed text gives null exactly when no digit, colon and two digits occur in it |
| TimeFormat.StoredIsStrict | dashboard.js:156-158 | a stored time goes through the strict branch unchanged |
| TimeFormat.WellFormedNoSpace | dashboard.js:155 | trimming a stored time changes nothing |
| TimeFormat.NormalizeTime | dashboard.js:153-170 | empty input gives `""`; any other result is a stored `HH:MM` time |
| TimeFormat.NormalizeTimeNull | dashboard.js:154-169 | null exactly for non-empty input whose trim holds no digit-colon-two-digits |
| TimeFormat.NoneIffNoMatch | dashboard.js:156-169 | after trimming, null exactly when the expression matches nowhere |
| TimeFormat.NoMatchIffNoCore | dashboard.js:160 | the expression matches somewhere exactly when one digit, a colon and two digits occur |
| TimeFormat.NormalizeUntrimmed | dashboard.js:155 | text not padded with whitespace goes straight to the pattern tests |
| TimeFormat.NormalizeTimeFixes | dashboard.js:156-158 | a stored time is its own normal form |
| TimeFormat.NormalizeTimeIdempotent | dashboard.js:153-170 | normalising a normalised time changes nothing |
| TimeFormat.StrictExample | dashboard.js:156-158 | `"7:00"` becomes `"07:00"` |
| TimeFormat.StrictBranch | dashboard.js:156-158 | a string of the strict form takes the strict branch |
| TimeFormat.NormalizeStrict | dashboard.js:153-158 | `H:MM` or `HH:MM` typed without a suffix comes back with its hour padded to two digits and nothing else changed |
| TimeFormat.ColonIndex | dashboard.js:175 | `split(":")` cuts at the first colon |
| TimeFormat.DigitPrefix | dashboard.js:175 | `parseInt` reads the longest run of leading digits |
| TimeFormat.ParseDigits | dashboard.js:175 | `parseInt` of a run of digits is its value |
| TimeFormat.DisplayHourClock | dashboard.js:178 | `((hh + 11) % 12) + 1` is 1 to 12: 12 for 0 and 12, otherwise hh mod 12 |
| TimeFormat.FormatTimeForDisplay | dashboard.js:173-180 | the empty string stays empty, and a time whose hour part is not a number is returned unchanged |
| TimeFormat.MinutesText | dashboard.js:175-179 | `String(mm)` is `undefined` exactly when there is no colon, and `NaN` exactly when the minutes field is there but not a number |
| TimeFormat.FormatNoColon | dashboard.js:173-179 | a time without a colon whose hour is a number shows that 12-hour hour followed by `:undefined` and its suffix |
| TimeFormat.FormatNoColonExample | dashboard.js:173-179 | `"7"` shows as `"7:undefined AM"` |
| TimeFormat.FormatWellFormed | dashboard.js:173-180 | a stored time shows as its 12-hour hour, a colon, its minutes unchanged, and PM exactly from hour 12 |
| TimeFormat.SplitPieces | dashboard.js:160 | the text `h:mm`, then w, then the rest, has those pieces at the positions the expression reads them from |
| TimeFormat.NormalizeTwelveHour | dashboard.js:153-169 | one or two hour digits, a colon, two minute digits, any whitespace and `AM`, `PM`, `am` or `pm` give the hour adjusted by the 12-hour rule (PM below 12 gains 12, 12 AM is 0, any other hour kept), padded to two digits, a colon and the minutes |
| TimeFormat.TwelveHourText | dashboard.js:153-169 | the same, with the adjusted hour field written out as two digits |
| TimeFormat.NormalizeNoSuffix | dashboard.js:153-169 | one or two hour digits, a colon, two minute digits, any whitespace and then text that does not start with a suffix give the hour unadjusted, padded to two digits, a colon and the minutes |
| TimeFormat.NoSuffixText | dashboard.js:153-169 | the same, with the padded hour field written out as two digits |
| TimeFormat.NoSuffixDotted | dashboard.js:160-168 | `"7:30 p.m."` is not read as PM and becomes `"07:30"` |
| TimeFormat.TwelveHourPm | dashboard.js:160-168 | `"7:30 pm"` becomes `"19:30"` |
| TimeFormat.TwelveHourMidnight | dashboard.js:160-168 | `"12:05am"` becomes `"00:05"` |
| TimeFormat.TwelveHourOutOfRange | dashboard.js:160-168 | the hour is not range-checked: `"25:00 pm"` becomes `"25:00"` |
| TimeFormat.ReadDisplay | dashboard.js:160-167 | `normalizeTime` reads a display string back as its hour, minutes and suffix in 24-hour form |
| TimeFormat.To24OfDisplay | dashboard.js:165-178 | the display hour with its suffix, converted back, gives the 24-hour hour |
| TimeFormat.ReadStoredDisplay | dashboard.js:160-180 | a stored time's display text is read back as that time |
| TimeFormat.DisplayRoundTrip | dashboard.js:153-180 | `normalizeTime(formatTimeForDisplay(t))` is t for every stored time with hour ≤ 23 |
| TimeFormat.CurrentTimeFields | dashboard.js:240 | on a clock reading the `current` string is a stored time naming that hour and minute |
| TimeFormat.StoredIsCurrent | dashboard.js:240 | every stored time is the `current` string of its own hour and minute |
| TimeFormat.CurrentTimeMatches | dashboard.js:240-246 | a habit's time equals `current` exactly when it names the clock's hour and minute |
| DailyTracker.ReadCompleted | dailytracker.js:119-123 | the ledger read is the normalisation of what is stored, so it is in normal form |
| DailyTracker.WriteCompleted | dailytracker.js:124-128 | the stored ledger becomes the normalised in-memory ledger; nothing else changes |
| DailyTracker.GetConsecutiveStreakUpTo | dailytracker.js:249-259 | the loop returns the streak ending at the date in the normalised ledger |
| DailyTracker.UnlockBadges | dailytracker.js:265 | the threshold loop computes the unlocked list and `newlyUnlocked`, which holds exactly the eligible thresholds |
| DailyTracker.HandleCompletionForDay | dailytracker.js:261-266 | the badge list and `newlyUnlocked` follow the streak ending at the day; nothing else changes |
| DailyTracker.ToggleDayCompletion | dailytracker.js:206-215 | the stored ledger is the toggled normalised ledger; badges are handled with the new streak exactly when the day was absent, and otherwise untouched |
| DailyTracker.CompleteToday | dailytracker.js:244 | today is pushed, the ledger written and the badge loop run with the new streak |
| DailyTracker.AutoCompleteTodayIfAllHabitsDone | dailytracker.js:238-245 | today is added, with badge handling, exactly when all habits are done and today is absent; otherwise ledger and badges are unchanged |
| DailyTracker.OnLoadAutoCompleteCheck | dailytracker.js:611-621 | the same completion with the tests in the other order; confetti exactly when the stored badge list is non-empty |
| DailyTracker.LongestRunInMonth | dailytracker.js:415-418 | `longest` is the length of some run of completed days in 1..days (or 0), and no run is longer |
| DailyTracker.TallySnoc | dailytracker.js:437 | one counting step keeps names in first-seen order and counts equal to done entries |
| DailyTracker.CountFromConcat | dailytracker.js:434-437 | counting one list after another is counting their concatenation |
| DailyTracker.TallyOfSpec | dailytracker.js:437 | the `counts` object has the pooled names in first-seen order, each with its number of done habits |
| DailyTracker.CountList | dailytracker.js:437 | the `arr.forEach` loop extends the tally by the list |
| DailyTracker.CountAll | dailytracker.js:433-439 | the tally over every present list, with `any` exactly when some list is present |
| DailyTracker.FirstOfLargest | dailytracker.js:441-442 | the front of the stable sort by descending count: the largest count, every earlier name smaller |
| DailyTracker.DetermineTopHabit | dailytracker.js:432-443 | null exactly when no list is present or nothing is pooled; otherwise the name at the unique top position |
| Dashboard.RepairItem | dashboard.js:52-55 | the callback returns the repaired item, draws an id only when one is missing, and reports a write exactly when an id or `done` was added |
| Dashboard.RepairItems | dashboard.js:49-56 | the loop computes `RepairList`: the repaired items, the next fresh id and `changed` |
| Dashboard.EnsureInitialized | dashboard.js:42-60 | the habit lists and the id supply become `InitUpTo` of the old ones, and the rest of the store is unchanged |
| Dashboard.NewHabit | dashboard.js:145 | a new habit is not done and not a default |
| Dashboard.AddNew | dashboard.js:139-147 | an empty trimmed name or an empty time is refused with the store unchanged; otherwise exactly one new habit with a fresh id, the trimmed name and the time is appended |
| Dashboard.AddedStaysSettled | dashboard.js:145-147 | an added habit needs no repair: `ensureInitialized` leaves a settled list with it as it is |
| Dashboard.CountProgress | dashboard.js:184-189 | the loop counts all period habits and the done ones among them |
| Dashboard.UpdateTrackerUI | dashboard.js:184-197 | done ≤ total; pct is the rounded percentage, 0 for no habits and at most 100; the mood follows pct |
| Dashboard.QuoteIndex | dashboard.js:214 | for a non-negative sum the index is a position of the quote list |
| Dashboard.PickDailyQuote | dashboard.js:212-216 | a quote of the list exactly when the index is not negative, otherwise `undefined` |
| Dashboard.QuoteRotates | dashboard.js:214 | from one day of a month to the next the quote moves one place round the list |
| Dashboard.RemindItems | dashboard.js:245-253 | the inner loop computes the pass over one list |
| Dashboard.RemindAll | dashboard.js:243-254 | the loop over periods computes `RemindUpTo` over their lists |
| Dashboard.CheckReminders | dashboard.js:238-256 | the reminders sent and the day's new notified set are the pass over the lists from the day's stored set; only that key changes |
| Dashboard.AtMostOncePerDay | dashboard.js:238-256 | a later pass on the same day reminds no habit the first pass marked |
| Dashboard.ClearItems | dashboard.js:262 | the loop sets `done` to false on every item |
| Dashboard.ResetToday | dashboard.js:259-266 | the habit lists become `ResetUpTo` of the old ones, and today's notified key is removed |
| Dashboard.ResetForgetsReminders | dashboard.js:266 | after the reset the day's notified set reads as empty |

## Left out

- **Presentation.** DOM rendering, event wiring, the calendar grid, the badge strip, the modal, the garden, challenges, the chart and `hexToRgba`, confetti animation, the spin wheel and message texts are left out. They are presentation and foreign libraries. `determineTopHabit`'s result and the counters are returned instead of displayed.
- **Floating point.** The floating-point percentages and consistency of the monthly summary (dailytracker.js:412, 420-427) are left out.
  - `updateTrackerUI`'s rounding is exact integer arithmetic, equal to `Math.round` on exact quotients.
- **JSON.** `JSON.parse` and its exceptions, and `JSON.stringify`, are left out: the store holds parsed values.
  - Under a habit key the model holds an array or nothing. A stored non-array there breaks the habit page's code. The calendar page skips it through its `Array.isArray` tests (dailytracker.js:224, 229, 233-234, 437); its `try` blocks only catch the exceptions of `JSON.parse`, which are left out.
- **`Number()` coercion.** Raw ledger entries are only "finite number" or "anything else". Non-integer numbers are not modelled.
- **`title` field.** `h.habit || h.title || "Unnamed"` is modelled without the `title` field.
- **Habit fields.**
  - A falsy `id` or `habit` is the empty string.
  - A falsy `done` that is not `false`, such as `0` or `null`, is modelled as `false`.
  - A habit whose `id` is undefined would be marked under the key `"undefined"`. In the model it is marked under `""`.
- **`uid()`.** `Date.now` and `Math.random` are replaced by the counter supply. Its ids differ from each other but are not checked against ids already stored.
- **Outside APIs.** The Notification API and `alert`, `confirm` and `prompt` are left out. `checkReminders` returns the habits it reminds, and the reminder text is not built.
- **Clocks and timers.** `setInterval`, page navigation, `new Date()` and `toISOString` are left out. Dates, times and the day string are parameters.
  - JavaScript's mapping of years 0 to 99 in `new Date(y, m, d)` is not modelled. The calendar model is proleptic Gregorian for every year.
- **Other pages.** `script.js` (theme toggle) and `firebase.js` (SDK configuration) are not part of this model.
- DailyTracker.DetermineTopHabit: ties go to the name seen first, which is what the stable sort gives when `Object.keys` keeps insertion order. Integer-like names, which `Object.keys` lists first in numeric order, are not modelled.
- DailyTracker.DetermineTopHabit: names that are properties of `Object.prototype` (`constructor`, `toString`, `valueOf`, `hasOwnProperty`, `__proto__` and the rest) are not modelled. `counts` is a plain object (dailytracker.js:433), so `counts[name]` already reads as truthy for such a name and is never set to 0 (dailytracker.js:437). An undone habit with such a name adds no key, so a pool made only of those gives `null` (dailytracker.js:441-442) where the model returns the name. A done one turns the inherited value into `NaN` (for `__proto__` the write is ignored), and the comparator then sees a tie. The model treats every name as an ordinary key.
- TopHabit.Names: the tally it describes is the one for ordinary names; names that are `Object.prototype` properties are not modelled (see DailyTracker.DetermineTopHabit above).
- TopHabit.NamesSpec: the tally it describes is the one for ordinary names; names that are `Object.prototype` properties are not modelled (see DailyTracker.DetermineTopHabit above).
- DailyTracker.TallyOfSpec: the tally it describes is the one for ordinary names; names that are `Object.prototype` properties are not modelled (see DailyTracker.DetermineTopHabit above).
- Dashboard.PickDailyQuote: it takes the year, zero-based month and day as numbers instead of reading the clock.
- Dashboard.CheckReminders: the hour and minute are parameters, and the reminder message (`habit — formatted time`) is not produced.
- Dashboard.CheckReminders: the day's notified record is a plain object in the source (dashboard.js:242), and the model holds it as a set of ids. The test `!notified[h.id]` (dashboard.js:246) reads an inherited property for an id that names a property of `Object.prototype` (`constructor`, `toString`, `valueOf`, `hasOwnProperty`, `__proto__` and the rest). Such a habit counts as already notified, so the source never reminds it and never marks it. The model reminds it like any other habit. Ids from `uid()` (`h` followed by base-36 digits) and from the defaults never take these values.
- Reminders.RemindList: the set of notified ids stands for the plain object of dashboard.js:242. Ids that name `Object.prototype` properties are not modelled: the source treats them as already notified (dashboard.js:246), while RemindList, RemindComplete and RemindCompleteAt have them reminded.
- Ledger.Normalize: the month key `__proto__` is not modelled. In the source `normalized[k] = uniq` (dailytracker.js:114) with that key runs the prototype setter and creates no own key, so the key and its days disappear from the normalised ledger and from every later write. The model keeps it as an ordinary key. Keys built by `monthKey` (`year-month`) never take this value.
