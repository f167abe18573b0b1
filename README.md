# Leaderboard submission store, modelled in Dafny

This project models the storage service of a small community leaderboard. The
service keeps one document (a list of users and a list of submissions) in a
single browser-storage slot. Every operation reads the whole document, and
every operation that changes something writes the whole document back. The
four operations are:

- `getUsers`: all users ranked by `total_submissions`, highest first, using a
  stable sort.
- `getOrCreateUser`: log in by name, ignoring case, or register the name as a
  new user with a count of 0.
- `addSubmission`: refuse an unknown user, or one whose newest submission is
  less than 2000 ms old. Otherwise append one submission and add one to that
  user's counter.
- `getRank`: the user's 1-based position in the ranking, or 0 for an unknown
  identifier.

Modules, one per concern:

- `Types`: the records `User`, `Submission` and `LocalDB`, the document.
- `Text`: ASCII lower-casing and equality up to case.
- `Search`: `FindIndex`, the `findIndex` of JavaScript arrays.
- `Ranking`: the stable sort by count (`SortByCount`) and what makes it the
  leaderboard order.
- `Ledger`: the document as a value. It holds the lookups, the data invariant
  `Consistent` and the two updates as functions from the old document to the
  new one (`GetOrCreate`, `Submit`).
- `StorageService`: the class `Store`.
  - Its field `blob: Option<LocalDB>` is the storage slot.
  - `GetDB` reads an absent blob as the empty document.
  - `SaveDB` replaces the blob.
  - `GetUsers` and `GetRank` are functions that read the store.
  - `GetOrCreateUser` and `AddSubmission` are methods that load, update and
    save. They write nothing on the paths where the source does not call
    `saveDB`.

Side inputs are parameters:

- `now: nat` is the clock reading for the whole call.
- `freshId` / `subId` stand for the random UUIDs. A `FreshId` precondition
  states that no stored user or submission carries them yet.

The data invariant `Consistent` says four things:

- user identifiers are unique;
- submission identifiers are unique;
- every submission belongs to a stored user;
- every user's `total_submissions` equals the number of submissions whose
  `user_id` is that user's id.

Both updates preserve it. They also preserve `UniqueNames`: no two users
have names that are equal up to case. `Store.Valid()` is both together. A new
store is valid, and the two methods carry validity as `old(Valid()) ==> Valid()`.

## Model

| member | source | states |
|---|---|---|
| `Text.Lower` | services/storageService.ts:27 | the lower-cased name has the same length and each character lower-cased (ASCII letters) |
| `Text.LowerEqualIff` | services/storageService.ts:27 | comparing lower-cased names is exactly equality of names up to the case of their letters, in both directions |
| `Search.FindIndex` | services/storageService.ts:45 | the result is -1 exactly when no element satisfies the predicate; otherwise it is the first index that does |
| `Ranking.Insert` | services/storageService.ts:22 | inserting a user into a list sorted by count keeps it sorted and adds exactly that user; where it lands among users of its count is `InsertKeepsGroups` |
| `Ranking.InsertKeepsGroups` | services/storageService.ts:22 | inserting `u` puts it first among the users of its count; the users of every other count are unchanged |
| `Ranking.SortByCount` | services/storageService.ts:22 | the ranking is a permutation of the stored users, non-increasing by `total_submissions`, and stable: for every count, the users with that count keep their stored order |
| `Ranking.SortKeepsOrderOfEqualCounts` | services/storageService.ts:22 | two users with equal counts appear in the ranking in the order they are stored in |
| `Ranking.StableSortIsUnique` | services/storageService.ts:22 | any arrangement that is sorted by count and keeps each count's stored order is exactly `SortByCount`, so the contract pins the order down |
| `Ledger.IndexOfName` | services/storageService.ts:27 | -1 exactly when no stored name equals the given one after lower-casing; otherwise the first matching position |
| `Ledger.IndexOfId` | services/storageService.ts:45 | -1 exactly when the identifier is not stored; otherwise the first position carrying it |
| `Ledger.SubmissionsOf` | services/storageService.ts:50-51 | holds exactly the stored submissions whose `user_id` is the given user |
| `Ledger.Latest` | services/storageService.ts:50-52 | None exactly for no submissions; otherwise the largest `created_at` among them, which some submission carries |
| `Ledger.TooSoon` | services/storageService.ts:50-54 | the anti-spam test: the user has a submission and `now` minus the newest `created_at` is below 2000. Its meaning is stated by `TooSoonIff` |
| `Ledger.TooSoonIff` | services/storageService.ts:54 | the cooldown refuses exactly when one of the user's submissions is less than 2000 ms older than `now`; with no earlier submission it never refuses |
| `Ledger.SubmitError.Message` | services/storageService.ts:47-55 | the caller-visible texts "User not found" (line 47) and "Please wait a moment before submitting again." (line 55) |
| `Ledger.GetOrCreate` | services/storageService.ts:25-41 | with a case-insensitive match: the document is unchanged and the first matching user is returned. Without: one user `{freshId, name, 0, now}` is appended, the submissions are unchanged, and that user is returned |
| `Ledger.Submit` | services/storageService.ts:43-69 | an unknown id gives "User not found" and no change; a cooldown hit gives the rate-limit error and no change; otherwise exactly one submission `{subId, userId, now}` is appended, only that user's counter goes up by 1, all other users and the order stay as they were, and the updated user is returned |
| `Ledger.Incremented` | services/storageService.ts:65 | the user list keeps its length and its identifiers; position `i` is the same user with its count one higher (name and creation time unchanged), and every other position is unchanged |
| `Ledger.CountOf` | services/storageService.ts:64-65 | the number of submissions belonging to a user, the count the invariant compares each counter with; `CountOfAppend` and `CountOfUnreferenced` pin it down |
| `Ledger.CountOfAppend` | services/storageService.ts:64 | appending a submission adds one to its owner's count and changes no other count |
| `Ledger.CountOfUnreferenced` | services/storageService.ts:38 | a user no submission refers to has count 0 |
| `Ledger.GetOrCreateKeepsConsistent` | services/storageService.ts:31-39 | registering a user with a fresh identifier preserves the data invariant |
| `Ledger.AppendUserKeepsConsistent` | services/storageService.ts:31-38 | appending a user with a fresh identifier and count 0 preserves the data invariant |
| `Ledger.GetOrCreateKeepsUniqueNames` | services/storageService.ts:25-41 | if no two users have names equal up to case, the same holds after any log-in, so repeated log-ins never create a duplicate |
| `Ledger.SubmitKeepsUniqueNames` | services/storageService.ts:58-67 | a submission changes no user name, so names stay unique up to case |
| `Ledger.SubmitKeepsConsistent` | services/storageService.ts:58-67 | every outcome of a submission with a fresh identifier preserves the data invariant |
| `Ledger.IncrementKeepsConsistent` | services/storageService.ts:64-65 | appending one submission for user `i` while adding one to its counter preserves the data invariant |
| `Ledger.CaseInsensitiveLogin` | services/storageService.ts:25-41 | two log-ins with names equal up to case return the same user id; the second changes nothing, and at most one user is added in all |
| `Ledger.RejectedWithinCooldown` | services/storageService.ts:49-56 | after an accepted submission at `t1`, a submission before `t1 + 2000` is refused with the rate-limit error and changes nothing |
| `Ledger.AcceptedAfterCooldown` | services/storageService.ts:49-62 | if no stored submission is newer than `t1`, then after an accepted submission at `t1` another at `t1 + 2000` or later is accepted |
| `Ledger.ReplayCounts` | services/storageService.ts:58-67 | over any series of submission calls, each user's counter grows by exactly the number of that user's accepted calls |
| `StorageService.Store.SaveDB` | services/storageService.ts:16-18 | the slot holds exactly the given document afterwards |
| `StorageService.Store.GetDB` | services/storageService.ts:11-14 | an absent blob reads as the empty document; a stored one reads as itself |
| `StorageService.Store.GetUsers` | services/storageService.ts:21-23 | the stored users, permuted, non-increasing by count, each count's users in stored order |
| `StorageService.Store.GetRank` | services/storageService.ts:71-75 | 0 exactly for an unknown id; otherwise `r` between 1 and the number of users, where position `r - 1` of the ranking is the first one carrying the id |
| `StorageService.Store.GetOrCreateUser` | services/storageService.ts:25-41 | the new document and the returned user are those of `GetOrCreate`; the slot is untouched when a user matched and holds the new document otherwise; the invariant and name uniqueness are kept |
| `StorageService.Store.AddSubmission` | services/storageService.ts:43-69 | the new document and the outcome are those of `Submit`; the slot is untouched on either refusal and holds the new document on success; the invariant and name uniqueness are kept |
| `StorageService.TopUserRanksFirst` | services/storageService.ts:71-75 | a user whose count is above every other user's has rank 1 |
| `StorageService.HigherCountRanksAhead` | services/storageService.ts:71-75 | in a valid store, a user with a higher count has a strictly smaller (better) rank |
| `StorageService.HigherCountSortsAhead` | services/storageService.ts:22 | in the ranking, a higher-count user's id is found before a lower-count user's |
| `StorageService.EqualCountRanksInStoredOrder` | services/storageService.ts:71-75 | in a valid store, of two users with equal counts the one stored first has the smaller rank |
| `StorageService.EqualCountSortsInStoredOrder` | services/storageService.ts:22 | in the ranking, of two equal-count users the id of the one stored first is found first |

## Left out

- Browser storage and JSON (services/storageService.ts:11-18) are not modelled. The slot is a field holding a document value, so a round trip through `JSON.stringify`/`JSON.parse` is not modelled either.
- Malformed stored text is not modelled: `JSON.parse` at line 13 throws on it. Only an absent or empty slot reads as the empty document; the model does not distinguish an empty stored string from an absent slot.
- `Date.now()` is a parameter `now`. The source reads the clock twice in `addSubmission` (lines 54 and 61); the model uses one reading for both.
- `crypto.randomUUID()` is a parameter. Its uniqueness is the precondition `FreshId`, not something proved.
- Text.Lower: lower-cases ASCII letters only, where `toLowerCase` applies full Unicode case mapping.
- JavaScript numbers are doubles. The model uses unbounded `int` for timestamps and `nat` for counters, so precision loss past 2^53 is not modelled.
- `getUsers` sorts a freshly parsed copy of the user list in place. That copy is thrown away, so the model computes the sorted list as a value and leaves the stored order unchanged, as in the source.
- The source finds the newest submission by sorting the user's submissions by time and taking the first. The model takes the maximum timestamp; only the timestamp is used.
- Concurrent writers (two tabs) are not modelled. A single writer is assumed, and every operation runs to completion before the next.
- The optional `note` field of a submission, the unused `AppState` and `LeaderboardEntry` types, the user interface (App.tsx) and the text-generation call (services/geminiService.ts) are not part of this model.
