# Leaderboard API — a verified Dafny model

This project models the leaderboard endpoint of the game (`api/leaderboard.js`).
The endpoint keeps one best result per player and game mode. There are two modes,
`skeleton` and `muscle`.

- **GET** returns the ten best results of a mode in display order. The order is
  higher score first, then shorter duration, then earlier creation.
- **POST** submits a result. The server normalises the player name: whitespace runs
  become one space and the ends are trimmed. It then refuses names that are
  invalid or contain a blocked term, and results that are not integers or are out
  of range. It derives an accuracy percentage. It stores the result only when it
  beats the player's stored one: a higher score, or an equal score in strictly
  less time. The answer says whether the result was saved and holds the mode's
  refreshed top ten.
- **DELETE** removes a row by id. It needs an administrator code that matches
  the configured one.
- Any other method gets status 405. A failing store call gets status 500 with
  the store's message.

The database table is modelled as a sequence of rows (`Records.Entry`) plus the
counter that hands out ids, both held in the class `Handler.Leaderboard`. The
store functions of `Store` state which rows each query returns and which rows
each write leaves. The invariant `Store.StoreInvariant` says:

- ids are distinct and positive;
- every row carries validated values;
- there is at most one row per (mode, player name).

Every state-changing method keeps that invariant.

Modules:

- `Wrappers`: `Option` and `Result`.
- `Records`: the row, the payload and the shared constants.
- `Names`: `normalizeName`, `isValidName` and `hasBlockedTerms`.
- `Ranking`: `rankSort`, `isBetterResult`, an in-place insertion sort on an
  array, and the top-N view.
- `Scoring`: the integer and range checks, and the accuracy percentage.
- `Store`: the queries and writes on the table.
- `Handler`: requests, responses and the `Leaderboard` class with the three
  branches.

Where the code's behaviour may surprise, the model follows it:

- One message covers both a name of the wrong length and a name with a
  character outside the allowed set. So the model has one reason,
  `InvalidName`, for both.
- The PATCH that updates an existing row sends no `created_at`. So an improved
  result keeps its row's original creation time, and `Store.Patched` keeps it.
- A DELETE whose id matches no row still answers 200.

Calls the model makes explicit:

- A POST validates its fields in a fixed order, and the first failing check
  decides the answer: mode, name, blocked term, integers, range.
- The time of a new row is the parameter `now`.
- Whether a store call fails is the parameter `fault`. It names the first
  failing call of the request and the call's message.

## Model

| member | source | states |
|---|---|---|
| Names.IsWhitespace | api/leaderboard.js:28-29 | the characters JavaScript counts as whitespace in a pattern and in trimming; no contract of its own, it is the predicate every normalisation contract below is stated with |
| Names.CollapseWhitespace | api/leaderboard.js:28 | replacing each whitespace run with one space; no contract of its own: CollapseIsCollapsed, CollapseKeepsVisible and CollapseKeepsWords give its meaning |
| Names.Trim | api/leaderboard.js:29 | trimming both ends, the end-trim applied after the front-trim; no contract of its own: TrimStart and TrimEnd carry the contracts and WordsTrimStart and WordsTrimEnd show the words are kept |
| Names.NormalizeName | api/leaderboard.js:26-30 | an absent name becomes the empty string, then whitespace is collapsed and trimmed; no contract of its own: NormalizeNameJoinsWords states its full meaning, NormalizeNameIsNormal its shape |
| Names.TrimStart | api/leaderboard.js:29 | the result is a suffix of the input; everything dropped is whitespace; the result is empty or starts with a non-whitespace character |
| Names.TrimEnd | api/leaderboard.js:29 | the result is a prefix of the input; everything dropped is whitespace; the result is empty or ends with a non-whitespace character |
| Names.TrimStartKeepsVisible | api/leaderboard.js:29 | trimming the front drops whitespace only: the visible characters stay, in order |
| Names.TrimEndKeepsVisible | api/leaderboard.js:29 | trimming the end drops whitespace only: the visible characters stay, in order |
| Names.CollapseIsCollapsed | api/leaderboard.js:28 | after each whitespace run is replaced by one space, no whitespace character other than a single space remains, and no two spaces are adjacent |
| Names.CollapseKeepsVisible | api/leaderboard.js:28 | collapsing whitespace keeps every non-whitespace character, in order |
| Names.NormalizeNameIsNormal | api/leaderboard.js:26-30 | a normalised name has single inner spaces only and no leading or trailing whitespace, whatever the input; an absent or empty input gives the empty name |
| Names.NormalizeNameKeepsVisible | api/leaderboard.js:26-30 | normalising drops or merges whitespace only: the non-whitespace characters are those of the input, in order |
| Names.NormalizeNameFixesNormal | api/leaderboard.js:26-30 | a name that is already normal is returned unchanged |
| Names.NormalizeNameIdempotent | api/leaderboard.js:26-30 | normalising twice is the same as normalising once |
| Names.WordsTrimStart | api/leaderboard.js:29 | trimming the front keeps the words (maximal runs of non-whitespace characters) of the name |
| Names.WordsTrimEnd | api/leaderboard.js:29 | trimming the end keeps the words of the name |
| Names.CollapseKeepsWords | api/leaderboard.js:28 | collapsing whitespace keeps the words: no two words are glued together and none is split |
| Names.NormalIsJoinedWords | api/leaderboard.js:26-30 | a string in normal form is exactly its words separated by single spaces |
| Names.NormalizeNameKeepsWords | api/leaderboard.js:26-30 | the normalised name has the same words, in the same order, as the raw name |
| Names.NormalizeNameJoinsWords | api/leaderboard.js:26-30 | the normalised name is the raw name's words joined by single spaces: each whitespace run between two words becomes exactly one space and none remains at either end |
| Names.MatchesNamePattern | api/leaderboard.js:39 | the anchored one-or-more character-class test; no contract of its own: MatchesNamePatternIff gives its meaning |
| Names.IsValidName | api/leaderboard.js:37-40 | the length check, then the pattern; no contract of its own: ValidNameIff gives its meaning |
| Names.MatchesNamePatternIff | api/leaderboard.js:39 | the anchored pattern of line 39 matches exactly the non-empty strings whose every character is an ASCII letter or digit, å, ä, ö (either case), a space, `_` or `-` |
| Names.ValidNameIff | api/leaderboard.js:37-40 | a name is valid if and only if it has 2 to 16 characters, all of them letters a–z, A–Z, å, ä, ö, Å, Ä, Ö, digits, space, `_` or `-` |
| Names.Contains | api/leaderboard.js:34 | `includes`; no contract of its own: ContainsIff gives its meaning |
| Names.AnyTermIn | api/leaderboard.js:34 | `some` over the terms; no contract of its own: AnyTermInIff gives its meaning |
| Names.HasBlockedTerms | api/leaderboard.js:32-35 | the banned-term test on the lower-cased name; no contract of its own: HasBlockedTermsIff gives its meaning, BlockedInsideLongerName and CaseInsensitive its consequences |
| Names.ContainsIff | api/leaderboard.js:34 | `includes` holds if and only if the term occurs at some position |
| Names.AnyTermInIff | api/leaderboard.js:34 | `some` holds if and only if one of the terms is contained |
| Names.HasBlockedTermsIff | api/leaderboard.js:32-35 | a name is blocked if and only if one of the thirteen banned terms occurs somewhere in its lower-cased form |
| Names.ContainsTrans | api/leaderboard.js:34 | `includes` is transitive |
| Names.LowerContains | api/leaderboard.js:33-34 | lower-casing keeps containment |
| Names.AnyTermInSuperstring | api/leaderboard.js:34 | a string containing one that holds a term holds that term too |
| Names.BlockedInsideLongerName | api/leaderboard.js:32-35 | a name containing a blocked name is itself blocked |
| Names.LowerChar | api/leaderboard.js:33 | lower-casing of one character, for ASCII and Latin-1 letters only; no contract of its own: LowerIdempotent and CaseInsensitive are stated with it |
| Names.Lower | api/leaderboard.js:33 | lower-casing character by character; no contract of its own: LowerContains, LowerIdempotent and CaseInsensitive give its properties |
| Names.LowerIdempotent | api/leaderboard.js:33 | lower-casing twice is lower-casing once |
| Names.CaseInsensitive | api/leaderboard.js:32-40 | under the model's lower-casing (ASCII and Latin-1 letters), lower-casing a name changes neither whether it is blocked nor whether it is valid; with full Unicode lower-casing the validity half can fail (the Kelvin sign lower-cases to `k`), but the code never validates a lower-cased name |
| Names.ShortNameScenario | api/leaderboard.js:26-40 | the name `"  a "` normalises to `"a"`, which is too short |
| Names.StefanBlocked | api/leaderboard.js:32-35 | "Stefan" is blocked because it contains "fan" |
| Names.EcpaBlocked | api/leaderboard.js:32-35 | "ECPA" is blocked because its lower-cased form contains "cp" |
| Names.OverInclusiveScenario | api/leaderboard.js:32-35 | substring matching blocks innocent names: "Stefan" (contains "fan") and "ECPA" (contains "cp") |
| Ranking.RankSort | api/leaderboard.js:42-46 | the comparator, negative when the first row is shown first; no contract of its own: RankSortMeaning gives its meaning and RankSortAntisymmetric, RankSortTransitive and RankSortTotal its ordering laws |
| Ranking.RankSortMeaning | api/leaderboard.js:42-46 | `rankSort` is negative exactly when the first row has a higher score, or an equal score and shorter duration, or both equal and an earlier creation; it is zero exactly when all three keys agree |
| Ranking.RankSortAntisymmetric | api/leaderboard.js:42-46 | swapping the arguments flips the sign of `rankSort` |
| Ranking.RankSortTransitive | api/leaderboard.js:42-46 | "before" and "before or tied" are transitive |
| Ranking.RankSortTotal | api/leaderboard.js:42-46 | any two rows are comparable |
| Ranking.IsBetterResult | api/leaderboard.js:48-53 | whether a submission beats the stored result; no contract of its own: EqualIsNotBetter, BetterTrichotomy, BetterTransitive and BetterRanksEarlier give its meaning |
| Ranking.EqualIsNotBetter | api/leaderboard.js:48-53 | any result beats no result; an identical result is not better |
| Ranking.BetterTrichotomy | api/leaderboard.js:48-53 | of two different results exactly one beats the other, and "better" is asymmetric |
| Ranking.BetterTransitive | api/leaderboard.js:48-53 | "better" is transitive |
| Ranking.BetterRanksEarlier | api/leaderboard.js:42-53 | a better result is displayed before the worse one; of two rows that differ in score or duration, the one displayed first is the better one |
| Ranking.InsertIntoSorted | api/leaderboard.js:152 | one insertion step: the first `i + 1` rows become sorted, and the array is a permutation of its old contents |
| Ranking.SortByRank | api/leaderboard.js:152 | sorting the rows in place with the comparator: the array ends sorted by `rankSort` and is a permutation of its old contents |
| Ranking.TopPrefix | api/leaderboard.js:152 | the first `n` rows of a sorted sequence are its top `n` |
| Ranking.TakeTop | api/leaderboard.js:152 | sorting with the comparator and keeping the first `n` rows gives a result that is sorted, drawn from the rows, holds the smaller of `n` and the number of rows, and every row left out is displayed no earlier than every row kept |
| Ranking.TopOfTop | api/leaderboard.js:151-152 | the top ten of the first twenty rows of a mode is the top ten of the whole mode |
| Ranking.SortedArrangementUnique | api/leaderboard.js:42-46 | when no two rows share all three keys, there is only one sorted arrangement, so the displayed list does not depend on the sort algorithm |
| Scoring.InRange | api/leaderboard.js:168 | the range check of a submission; no contract of its own: ValidateSubmission states that its refusal happens exactly when this check is the first to fail |
| Scoring.RoundHalfUp | api/leaderboard.js:172 | rounding to the nearest integer with halves upward, on exact ratios; no contract of its own: RoundHalfUpIsNearest and RoundHalfUpWithin give its meaning |
| Scoring.Clamp | api/leaderboard.js:172 | bounding a value to 0..100; no contract of its own: AccuracyPercent states the bounded result |
| Scoring.RoundHalfUpIsNearest | api/leaderboard.js:172 | `Math.round(n / d)` is within one half of `n / d`, halves rounding up |
| Scoring.RoundHalfUpWithin | api/leaderboard.js:172 | rounding a ratio between 0 and 100 stays between 0 and 100 |
| Scoring.AccuracyPercent | api/leaderboard.js:172 | the accuracy is always within 0..100; for an in-range result it is `score / maxScore * 100` rounded to the nearest integer |
| Scoring.AccuracyScenario | api/leaderboard.js:172 | 80 points of 100 is 80 percent |
| Store.FindEntryByName | api/leaderboard.js:105-110 | the lookup returns a stored row of that player in that mode, or none when no such row exists |
| Store.FindEntryByNameUnique | api/leaderboard.js:105-110 | with at most one row per key, the lookup finds exactly that row |
| Store.ModeRows | api/leaderboard.js:98-103 | the `mode=eq.` filter keeps every row of the mode, as many times as it is stored, and no other row |
| Store.RemoveById | api/leaderboard.js:135-141 | deleting by id removes every row with that id and keeps all other rows |
| Store.Patched | api/leaderboard.js:119-125 | the row a PATCH leaves: the payload's fields over the old row, id and creation time kept; no contract of its own: PatchInPlace gives its meaning |
| Store.PatchById | api/leaderboard.js:119-125 | the PATCH of every row with an id; no contract of its own: PatchInPlace gives its meaning |
| Store.MeritOf | api/leaderboard.js:114-115 | the stored row the lookup found, as the previous result `isBetterResult` compares against (none when the lookup found nothing); no contract of its own: it enters every contract through UpsertWrites |
| Store.UpsertWrites | api/leaderboard.js:115 | the decision to write: the payload beats the row the lookup found, or none was found; no contract of its own: UpsertSpec (through UpsertBestEntry and HandlePost) and UpsertResubmitUnchanged are stated with it, and UpsertKeepsBest gives its effect |
| Store.NextIdAfter | api/leaderboard.js:127-132 | the store's id counter after an upsert, advanced only when a row is inserted; no contract of its own: UpsertKeepsInvariant shows that with it the ids stay distinct and below the counter, and UpsertSpec is stated with it |
| Store.NewEntry | api/leaderboard.js:127-132 | the inserted row, with its new id and creation time; no contract of its own: UpsertInsertsOne gives its meaning |
| Store.Upserted | api/leaderboard.js:112-133 | the rows after an upsert: unchanged unless the payload is better, else the key's row patched or a new row appended; no contract of its own: UpsertTouchesOnlyItsKey, UpsertInsertsOne, UpsertKeepsInvariant, UpsertKeepsBest and UpsertResubmitUnchanged give its meaning |
| Store.PatchInPlace | api/leaderboard.js:119-125 | the PATCH rewrites the row's payload fields, keeps its id, position and creation time, and leaves every other row alone |
| Store.UpsertTouchesOnlyItsKey | api/leaderboard.js:112-133 | an upsert changes only the row of the payload's (mode, player name) and adds at most one row, of that key |
| Store.UpsertInsertsOne | api/leaderboard.js:127-132 | with no row for the key, the upsert appends exactly one new row with a fresh id and the current time |
| Store.PatchKeepsInvariant | api/leaderboard.js:119-125 | patching a player's row with a valid payload keeps the store's invariant |
| Store.InsertKeepsInvariant | api/leaderboard.js:127-132 | inserting a row for a new (mode, player name) with the next id keeps the store's invariant |
| Store.UpsertKeepsInvariant | api/leaderboard.js:112-133 | an upsert keeps ids distinct and positive, values validated, and at most one row per (mode, player name) |
| Store.UpsertKeepsBest | api/leaderboard.js:112-133 | after an upsert the player's row exists, the payload does not beat it, and the previous row does not beat it: a stored result never gets worse |
| Store.UpsertResubmitUnchanged | api/leaderboard.js:112-117 | submitting the same result again writes nothing and leaves the rows unchanged |
| Store.RemoveKeepsDistinct | api/leaderboard.js:135-141 | deleting rows keeps ids and (mode, player name) pairs distinct |
| Store.RemoveKeepsInvariant | api/leaderboard.js:135-141 | deleting rows keeps the store's invariant |
| Handler.StatusOf | api/leaderboard.js:149-203 | the status of each refusal: 403 for a wrong admin code, 405 for an unsupported method, 500 for a store failure or internal error, 400 for the rest; no contract of its own: ClientErrorsChangeNothing and AcceptedPostStatus are stated with it |
| Handler.Reject | api/leaderboard.js:149-201 | a refusal: the reason's status with the reason as the error body; no contract of its own: ClientErrorsChangeNothing gives its meaning |
| Handler.OrEmpty | api/leaderboard.js:156 | an absent or falsy text field read as the empty string, as for the mode, the admin code and the id (lines 156 and 191-192); no contract of its own: ValidateSubmission and DeleteSpec (through HandleDelete) are stated with it |
| Handler.GetMode | api/leaderboard.js:147 | an absent or empty mode means `skeleton`; no contract of its own: HandleGet states the resulting answers |
| Handler.FaultResponse | api/leaderboard.js:202-204 | a failing store call answers 500 with the store's message, or "internal server error" when the message is empty |
| Handler.MakePayload | api/leaderboard.js:172-180 | the payload built from checked fields satisfies every rule the store relies on: allowed mode, accepted name, values in range, accuracy within 0..100 |
| Handler.ValidateSubmission | api/leaderboard.js:155-180 | each refusal happens exactly when its check is the first to fail (mode, then name, then blocked term, then integers, then range); a submission is accepted if and only if every check passes; an accepted payload carries the given mode and numbers, the normalised name, and the accuracy of its score |
| Handler.Leaderboard.ListEntries | api/leaderboard.js:98-103 | `listEntries` returns the first twenty rows of the mode in `score.desc, duration_ms.asc, created_at.asc` order |
| Handler.Leaderboard.UpsertBestEntry | api/leaderboard.js:112-133 | a failing lookup or write changes nothing; a result that is not better is not saved and the stored row is reported; otherwise the row is patched or inserted and reported; the store invariant holds after every outcome |
| Handler.Leaderboard.DeleteEntry | api/leaderboard.js:135-141 | deleting leaves exactly the rows with another id and keeps the invariant |
| Handler.Leaderboard.HandleGet | api/leaderboard.js:146-153 | an absent mode means `skeleton`; an unknown mode is refused with 400; otherwise 200 with the mode's top ten in display order; the store is not changed |
| Handler.Leaderboard.HandlePost | api/leaderboard.js:155-188 | a refused submission answers its reason and changes nothing; an accepted one is upserted and answered with the saved flag, the reported row and the mode's top ten after the write |
| Handler.Leaderboard.HandleDelete | api/leaderboard.js:190-199 | no id gives 400; a missing or wrong admin code gives 403; both delete nothing; otherwise the rows with that id are removed and the answer is 200 |
| Handler.Leaderboard.Handle | api/leaderboard.js:143-205 | dispatch by method: GET and unsupported methods leave the store unchanged, and any other method is refused with 405 |
| Handler.ClientErrorsChangeNothing | api/leaderboard.js:143-205 | every 4xx answer, whatever the method, leaves the rows and the id counter exactly as they were |
| Handler.AcceptedPostStatus | api/leaderboard.js:181-188 | an accepted submission is answered 200, or 500 when a store call fails |
| Handler.TopRowsOfMode | api/leaderboard.js:151-152 | a returned list holds at most ten rows, all of the requested mode and all stored |
| Handler.ThreeSubmissionsScenario | api/leaderboard.js:112-133 | one player's three submissions: 80 points in 5000 ms creates the row; 90 in 6000 ms replaces it but keeps its id and creation time; 90 in 7000 ms is not saved |

## Left out

- The HTTP plumbing is not modelled: the Supabase REST calls over `fetch`, the environment variables holding the URL and keys, URL encoding, JSON parsing and the `json` response writer. Each store call is an operation on the in-memory rows. A failure is the `fault` parameter, whose message goes through the 500 path.
- Responses are a status plus a reason tag or a typed body, not the Swedish message texts. The tag for each text is noted beside its constructor.
- `Number(...)` coercion is not modelled. Each numeric field arrives as an integer or as `NotInteger`, which stands for NaN, fractions and infinities.
- Scoring.AccuracyPercent: rounds the exact ratio, halves upward. JavaScript computes `score / maxScore * 100` in floating point first, which can land just below a half and round down (29 of 200 is such a ratio: 15 here, 14 in floating point). The proved bound 0..100 holds either way.
- Names.LowerChar: lower-cases ASCII and Latin-1 capitals only. `toLowerCase` covers all of Unicode. The blocked-term check runs only on names that passed the name pattern, whose letters all lie in that range, so the verdicts agree.
- Name length counts characters; JavaScript counts UTF-16 code units. The two agree on every character the name pattern allows, so validity is unaffected.
- `created_at` is an integer timestamp rather than a date string parsed by `new Date`.
- The lookup-then-write in `upsertBestEntry` is not atomic in `api/leaderboard.js`. Two concurrent submissions for the same player can race. The model runs one request at a time.
- DELETE ids are natural numbers or `None`. `None` stands for an absent or falsy id, the number 0 included, which line 193 refuses with 400; `Some(n)` is an id whose text is the digits of `n` (the string "0" included), which the code passes on to the store. An id text that is not a number is not modelled; a store that refuses an id reaches the 500 path as a `DeleteCall` fault.
- Handler.Leaderboard.UpsertBestEntry: reports the row it wrote. The code reports the first row the store returns, or null when the answer is not an array. The model does not capture that null case.
- Handler.Leaderboard.ListEntries: the code turns a non-array store answer into an empty list. That case does not arise in the model.
- Ranking.SortByRank: proves sorted and a permutation, not stability. Stability matters only for rows that tie on all three keys, and `Ranking.SortedArrangementUnique` shows that without such ties the result is fully determined.
