# donut-bot pairing and completion core, in Dafny

This project models the two stores behind the donut-bot Discord bot:

- `PairingManager` (`src/utils/pairing-manager.ts`) keeps, per guild, the
  all-time history of who was paired with whom. Its greedy `createPairings`
  pass pairs each member with the first remaining member they were never
  paired with. When no such member is left, it falls back to a repeat
  pairing.
- `DonutTracker` (`src/utils/donut-tracker.ts`) keeps, per guild, the log of
  donut completions. It allows one completion per unordered pair per week,
  which it identifies by a `"year-Wnn"` key. It also builds the leaderboard
  and the per-user statistics from that log.

Both stores are immutable values here, and every update returns the new
store. The modules follow the source:

- `Ids`: the user and guild id types that both stores share.
- `Sequences`: a JavaScript `Set` in insertion order, modelled as a
  duplicate-free sequence. Deletion keeps the order of the other elements.
- `PairingHistory`: `hasPairedBefore`, `recordPairing` and `savePairings`.
- `PairingEngine`: `createPairings`.
- `WeekId`: `getWeekId` in exact integer arithmetic.
- `DonutTracker`: `hasCompletedThisWeek`, `recordCompletion`,
  `getLeaderboard` and `getUserStats`.

Inputs that the source takes from outside are parameters here:

- `createPairings` shuffles its input with `Math.random`. `CreatePairings`
  instead takes the shuffled order as its parameter `shuffled`, and every
  contract holds for every order.
- The tracker operations read the clock. In the model they take the current
  week key and, for `recordCompletion`, the current timestamp as parameters.
- `getWeekId` needs the local calendar. It takes three parameters instead:
  - the year;
  - the milliseconds elapsed since local midnight of 1 January;
  - the weekday of 1 January (0 for Sunday, as `Date.getDay` reports it).

`CreatePairings` receives the history as a value and returns only the pairs,
so it cannot change the history. Only `SavePairings` records pairs.

The pass never leaves more than one member unpaired. For `n` distinct ids it
forms exactly `n / 2` pairs and leaves `n % 2` members unpaired. So when at
least two members take part, the "no pairs could be created" reply at
`src/commands/pair.ts:59` cannot be reached.

The contract of `CreatePairings` pins down its result. For a given shuffled
order and history, only one output meets it.

## Model

| member | source | states |
|---|---|---|
| PairingHistory.HasPairedBefore | src/utils/pairing-manager.ts:47-51 | false for an unknown guild and for a user with no list yet; otherwise true exactly when the second user is in the first user's list |
| PairingHistory.RecordPairing | src/utils/pairing-manager.ts:53-74 | afterwards `a` and `b` are known as partners in both directions and nothing else is newly known; other guilds and every other user's list are unchanged; the guild gains lists for exactly the two users; lists stay free of duplicates |
| PairingHistory.AddPartner | src/utils/pairing-manager.ts:59-71 | one direction of the record: `a`'s list is created when missing and then holds `b`; no other user's list changes; lists stay free of duplicates |
| PairingHistory.AddIfAbsent | src/utils/pairing-manager.ts:66-71 | the list afterwards holds exactly its old members plus `x`, without duplicates, and is unchanged when `x` was already in it |
| PairingHistory.RecordPairingBothWays | src/utils/pairing-manager.ts:58-71 | after `recordPairing(g, a, b)`, both `hasPairedBefore(g, a, b)` and `hasPairedBefore(g, b, a)` hold |
| PairingHistory.RecordPairingNoOp | src/utils/pairing-manager.ts:66-71 | recording a pair that is already known in both directions leaves the history equal to what it was |
| PairingHistory.RecordPairingIdempotent | src/utils/pairing-manager.ts:53-74 | a second identical `recordPairing` call leaves the history unchanged |
| PairingHistory.RecordPairingSymmetric | src/utils/pairing-manager.ts:53-71 | `recordPairing` preserves the symmetry invariant: `b` is in `a`'s list exactly when `a` is in `b`'s list |
| PairingHistory.RecordPairingCommutes | src/utils/pairing-manager.ts:53-71 | the order of the two users passed to `recordPairing` does not matter |
| PairingHistory.SavePairings | src/utils/pairing-manager.ts:123-127 | afterwards two users are known partners exactly when they were before or are one of the saved pairs, in either order; other guilds are unchanged; lists stay free of duplicates |
| PairingHistory.SavePairingsRecordsAll | src/utils/pairing-manager.ts:123-127 | from a symmetric history, every saved pair is recorded in both directions and the history stays symmetric |
| Sequences.Dedup | src/utils/pairing-manager.ts:86 | `new Set(shuffled)`: every input id exactly once, with no duplicates |
| Sequences.DedupDistinct | src/utils/pairing-manager.ts:86 | the set of an input without duplicates iterates in the input's own order |
| Sequences.Remove | src/utils/pairing-manager.ts:98-99 | `Set.delete`: exactly the other members remain, without duplicates, and one copy leaves the multiset |
| Sequences.KeepKeep | src/utils/pairing-manager.ts:98-99 | deleting members one after another is the same as deleting them all at once, in either grouping |
| PairingEngine.CreatePairings | src/utils/pairing-manager.ts:80-121 | the pairs and the unpaired members together hold every input id exactly once: no id twice and no other id; no pair has equal members; at most one member is left unpaired; each pair starts with the first member still unpaired, in set order, and its partner is the greedy choice among the members still unpaired when it was formed; the unpaired members are the set order minus the paired ones |
| PairingEngine.PassDetermined | src/utils/pairing-manager.ts:80-121 | the contract of `CreatePairings` fixes its result: two outputs that both meet it for the same shuffled order and history are equal |
| PairingEngine.FirstUnvisited | src/utils/pairing-manager.ts:89-90 | the outer loop reaches members in set order: when every earlier member of the shuffled order has left the set and `shuffled[i]` has not, `shuffled[i]` is the set's first member |
| Sequences.DedupOrder | src/utils/pairing-manager.ts:86 | `new Set(shuffled)` orders members by first occurrence: whatever the set holds before `shuffled[i]` occurs in `shuffled` before position `i` |
| PairingEngine.PairCounts | src/utils/pairing-manager.ts:80-121 | for `n` distinct ids, such a partition has `n / 2` pairs and `n % 2` unpaired members, so the pairs are non-empty once `n >= 2` |
| PairingEngine.GreedyChoiceUnique | src/utils/pairing-manager.ts:94-113 | the greedy choice is determined: the first remaining member never paired with `u`, or else the first other remaining member |
| PairingEngine.Visit | src/utils/pairing-manager.ts:89-115 | one turn of the outer loop keeps the pass's bookkeeping; it only removes members; once two or more remain, the visited member is no longer among them; a pair it forms starts with the visited member, which is then the first remaining member |
| PairingEngine.FindFreshPartner | src/utils/pairing-manager.ts:94-103 | the inner scan returns the first member other than `u` that was never paired with `u`; every member it skipped, other than `u`, is a past partner |
| PairingEngine.FreshIsGreedy | src/utils/pairing-manager.ts:94-103 | the member the inner scan finds is the greedy choice |
| PairingEngine.FallbackIsGreedy | src/utils/pairing-manager.ts:106-113 | when every other remaining member is a past partner, `others[0]` exists once two members remain; a repeat pairing with it is the greedy choice, and it is the first member other than `u` |
| PairingEngine.Push | src/utils/pairing-manager.ts:97-99 | pushing the greedy pair and deleting both members keeps the pass's bookkeeping, and exactly those two members leave the remaining set; the new pair starts with the first remaining member |
| PairingEngine.PassEnd | src/utils/pairing-manager.ts:115-120 | at the end of the pass the output partitions the input, no pair has equal members, and at most one member is left |
| WeekId.WeekNumber | src/utils/donut-tracker.ts:57-59 | the week number lies in [1, 54] and is the least whole number of weeks covering the elapsed time plus the 1 January weekday offset |
| WeekId.WeekNumberMonotonic | src/utils/donut-tracker.ts:57-59 | within a year, a later instant never gets an earlier week |
| WeekId.WeekNumberAtMidnight | src/utils/donut-tracker.ts:58-59 | at midnight the source's week number is the Sunday-start week of that day |
| WeekId.WeekNumberAfterMidnight | src/utils/donut-tracker.ts:58-59 | at any later time of day the source's week number is the Sunday-start week of the following day |
| WeekId.SaturdayNoonCountsAsNextWeek | src/utils/donut-tracker.ts:58-59 | for 2025, Friday noon is in week 1, but Saturday noon is already in week 2, while the whole-day week of that Saturday is week 1 |
| WeekId.WeekOfDay | src/utils/donut-tracker.ts:59 | the Sunday-start week of a whole day lies in [1, 54] and is the week whose seven days contain the day plus the weekday offset |
| WeekId.WeekOfDayStartsOnSunday | src/utils/donut-tracker.ts:59 | for whole days the week number goes up by one exactly on Sundays and otherwise stays the same |
| WeekId.NatToString | src/utils/donut-tracker.ts:60 | `toString` produces decimal digits: one digit below 10, two digits from 10 to 99 |
| WeekId.IntToString | src/utils/donut-tracker.ts:60 | `${date.getFullYear()}`: decimal digits, after a minus sign for a negative year |
| WeekId.IntToStringRoundTrip | src/utils/donut-tracker.ts:60 | the year's text reads back as the year |
| WeekId.PadStart2 | src/utils/donut-tracker.ts:60 | `padStart(2, '0')` reaches length two with leading zeros and keeps the string as its suffix |
| WeekId.GetWeekId | src/utils/donut-tracker.ts:55-61 | the key ends in `-W` and two digits, and reads back as the year and the week number |
| WeekId.WeekKey | src/utils/donut-tracker.ts:60 | for a week below 100 the key is the year's text, then `-W`, then exactly two digits |
| WeekId.WeekKeyRoundTrip | src/utils/donut-tracker.ts:60 | a key with a week below 100 parses back to its year and week |
| WeekId.WeekKeyInjective | src/utils/donut-tracker.ts:60 | different years or weeks give different keys, so comparing keys compares weeks |
| WeekId.CorrectedWeekId | src/utils/donut-tracker.ts:55-61 | the Sunday-start key of a day reads back as the year and that day's whole-day week |
| WeekId.CorrectedWeekIdAtMidnight | src/utils/donut-tracker.ts:55-61 | at midnight the source's key and the Sunday-start key are the same string |
| DonutTracker.SortPair | src/utils/donut-tracker.ts:67 | `[a, b].sort()` returns the two users in one of the two orders, the smaller one first in string order |
| DonutTracker.SortPairEqual | src/utils/donut-tracker.ts:67-72 | two `[a, b].sort()` results are equal exactly when the pairs are equal as unordered pairs |
| DonutTracker.HasCompletedThisWeek | src/utils/donut-tracker.ts:63-74 | false for an unknown guild; true exactly when some completion of the guild has the current week key and is between the two users, in either order |
| DonutTracker.HasCompletedThisWeekSymmetric | src/utils/donut-tracker.ts:63-74 | the answer does not depend on the order of the two users |
| DonutTracker.RecordCompletion | src/utils/donut-tracker.ts:76-101 | returns false and leaves the data unchanged when the unordered pair already completed this week; otherwise returns true and appends exactly one record stamped with the current week and time; earlier records and other guilds are unchanged; afterwards `hasCompletedThisWeek` holds |
| DonutTracker.RecordCompletionOncePerWeek | src/utils/donut-tracker.ts:63-101 | preserves the invariant of at most one record per guild, week and unordered pair |
| DonutTracker.RecordCompletionNextWeek | src/utils/donut-tracker.ts:82-97 | a pair recorded in one week is recorded again by a call in a different week that has no completion for the pair yet |
| DonutTracker.Bump | src/utils/donut-tracker.ts:109-110 | one `counts.set` step raises `u`'s count by one, leaves every other count alone and raises the total by one |
| DonutTracker.Tally | src/utils/donut-tracker.ts:106-111 | the counts map has one entry per participant; each count is the user's number of participant slots and at least 1; the counts sum to twice the number of completions |
| DonutTracker.InsertDesc | src/utils/donut-tracker.ts:113-115 | inserting into a list sorted by count, largest first, keeps it sorted and adds exactly the entry |
| DonutTracker.SortDesc | src/utils/donut-tracker.ts:113-115 | `sort((a, b) => b.count - a.count)` returns a permutation sorted by count, largest first, with the same total, and keeps entries with equal counts in their original order |
| DonutTracker.GetLeaderboard | src/utils/donut-tracker.ts:103-116 | empty for an unknown guild; sorted by count, largest first; each user at most once with a count of at least 1 equal to their participations; every participant listed; counts sum to twice the number of completions |
| DonutTracker.GetUserStats | src/utils/donut-tracker.ts:118-135 | `{0, 0}` for an unknown guild; `total` counts the completions naming the user and `thisWeek` those of them in the current week, so `thisWeek <= total` |
| DonutTracker.ParticipationsVersusInvolving | src/utils/donut-tracker.ts:108-131 | a user's leaderboard tally is their stats total plus their number of self-pair records |
| DonutTracker.LeaderboardMatchesStats | src/utils/donut-tracker.ts:103-135 | for a user without self-pair records, a leaderboard entry's count equals `getUserStats(...).total`, and a user with at least one completion is listed with that count |
| DonutTracker.SelfPairCountsTwice | src/utils/donut-tracker.ts:108-131 | a single self-pair record counts 2 in the leaderboard but 1 in the stats |

## Left out

- Loading and saving the JSON files, including their swallowed errors. Those are `loadHistory`, `saveHistory`, `loadData`, `saveData` and `mkdirSync`. This is file I/O, so the stores are in-memory values.
- The `Math.random` comparator shuffle at `src/utils/pairing-manager.ts:84`. It is randomness, so the shuffled order is a parameter.
- `Date`, `Date.now()`, the local time zone and daylight saving time. They are clock and calendar I/O. The elapsed milliseconds, the year and the weekday of 1 January are parameters. The record's `timestamp` is an opaque integer.
- WeekId.WeekNumber: assumes a whole number of milliseconds below 366 days and computes the ceiling exactly. It does not model the floating-point division by 86400000, nor days of 23 or 25 hours around a daylight-saving change.
- WeekId.WeekNumber: like the source, it does not follow ISO 8601 week numbering, despite the source comment. Late-December days keep their own year's number, up to week 54.
- DonutTracker.RecordCompletion: takes one current week key. The source reads the clock twice, once in `hasCompletedThisWeek` (`src/utils/donut-tracker.ts:66`) and once when stamping the record (`src/utils/donut-tracker.ts:95`). At a week boundary the two readings could disagree.
- DonutTracker.StrLe: orders strings by Unicode scalar value, while `Array.prototype.sort` compares UTF-16 code units. The two orders differ only for characters outside the Basic Multilingual Plane. The model only relies on the order being total and antisymmetric.
- Ids that collide with inherited object properties (such as `constructor`) are modelled as ordinary map keys. The source's truthiness checks on a plain object would treat them differently.
- `areCurrentWeekPartners`: `src/handlers/message-handler.ts` calls it, but it is not defined in `pairing-manager.ts`, so no per-week partner record is modelled.
- All Discord glue, in the commands and handlers modules. It is platform I/O.
- Concurrency: the source is single-threaded and has no locks.

## Findings

| source | as written | input that shows it | evidently intended | confidence | as-written member | corrected member |
|---|---|---|---|---|---|---|
| src/utils/donut-tracker.ts:58-59 | the week number is the ceiling of a fractional day count, so any instant after midnight is counted as the following day, and the week rolls over at 00:00:00.001 on Saturday | 2025 starts on a Wednesday: Saturday 4 January 2025, 12:00 local time gives `2025-W02`, while Friday 3 January, 12:00 gives `2025-W01` | weeks that start on Sunday, as the `getDay() + 1` offset gives for whole days; the week of 4 January is `2025-W01` | medium, not executed | WeekId.SaturdayNoonCountsAsNextWeek | WeekId.CorrectedWeekId |

The week-key parameter of every tracker operation stands for the corrected
key `WeekId.CorrectedWeekId`. `WeekId.CorrectedWeekIdAtMidnight` shows that
it equals the source's key at midnight. `WeekId.WeekNumberAfterMidnight`
shows that at every other time of day the source's key is the key of the
following day.
