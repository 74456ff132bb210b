# Battery game leaderboard and prize-code backend, in Dafny

This project models the backend of a small arcade game (`server.js`). Players submit scores.
A public leaderboard ranks them by each player's best entry, or by raw entries. An admin
issues, verifies and redeems one-week prize codes ("DRM-" and four symbols from a 32-symbol
alphabet). The admin can also finalize a contest at an ISO timestamp cutoff. Finalize freezes
the ranking into a snapshot once per cutoff and gives the top three players a code if they
hold none.

The server's four collections (`scores`, `prize_codes`, `leaderboard_snapshots`, `logs`) are
the fields of the class `Backend.Server`. Its methods are the handlers. They change those
fields and nothing else, and each keeps the invariant `Valid()`:
- ids count up from 1 in `scores`, `leaderboard_snapshots` and `logs` (prize codes carry no id);
- every score is an accepted submission's;
- no player holds two prize codes;
- every code has the prize-code shape.

The ranking code appears three times in the source. It is modelled once, in the module
`Ranking`:
- a fold builds the best-per-player rows in the `Map`'s insertion order;
- a stable insertion sort (`Sorting.SortBy`) orders them.

`Ranking.RankFacts` proves what the ranking is: one row per player, each row holding the
player's best entry and attempt count, sorted by the comparator, with full ties kept in
first-seen order.

Modules:
- `Wrappers`: `Option`.
- `Seqs`: `find`, `filter`, `slice`.
- `Text`: JavaScript string order, `slice(0, 64)`, `isIso`.
- `Sorting`: the stable sort.
- `JsNumbers`: `Number(...) | 0` and the limit clamp.
- `Codes`: prize codes.
- `PublicCodes`: "PLY-" display codes.
- `Auth`: `adminGuard`.
- `Ranking`: the ranking engine.
- `Registry`: the prize-code records and their status.
- `Snapshots`: the snapshot rows and winners.
- `Leaderboard`: GET /api/leaderboard.
- `Backend`: the server class.
- `Scenarios`: request sequences.
- `AsWritten`: the handlers as written, for the findings below.

The inputs the source takes from its environment become parameters:
- the clock: `now` in milliseconds, and `nowIso` for the same instant as text;
- the environment variables;
- SHA-256: a function value `string -> Digest`;
- the request fields.

Both issue-code and use-code look a code up with `db.prepare(...)` (server.js:185, 211). The
database object has no such method. The model follows the evident intent: a lookup in
`prize_codes` by code, as verify-code does at server.js:199. See "## Findings".

The issue-code retry loop keeps its tenth candidate even if that code is already in use. There
is no "code space exhausted" error. `Backend.Server.DrawCode` and `Backend.Server.IssueCode`
state that a code in use is kept only after ten draws.

## Model

| member | source | states |
|---|---|---|
| Seqs.IndexWhere | server.js:123 | `findIndex`/`find`: the first position whose element passes, every earlier one failing, or the length when none passes |
| Seqs.Filter | server.js:99-100 | `filter` keeps exactly the elements that pass, and never more than there were |
| Seqs.FilterSubMultiset | server.js:99-100 | `filter` never adds an element, nor repeats one more often than the input does |
| Seqs.Take | server.js:241 | `slice(0, n)` holds the first `min(n, length)` elements, unchanged |
| Text.LessTrichotomy | server.js:118 | JavaScript `<` on strings orders any two different strings one way round |
| Text.LessTransitive | server.js:122 | JavaScript `<` on strings is transitive, so the timestamp tie-break is a consistent order |
| Text.AtMostIsLessOrEqual | server.js:229 | `ts <= cutoff` holds exactly when `ts < cutoff` or they are equal |
| Text.Truncate | server.js:83 | `slice(0, 64)` keeps the first 64 characters, and the whole string when it is shorter |
| Text.IsIso | server.js:35 | `isIso` holds exactly when the digit pattern occurs somewhere in the string, so the string is at least 24 long |
| Text.IsIsoUnanchored | server.js:35 | text before and after a timestamp does not stop `isIso` from accepting it |
| Text.IsIsoExamples | server.js:35 | a well-formed timestamp is accepted, as is any digit pattern such as month 99; a timestamp without milliseconds is not |
| Sorting.SortBy | server.js:122 | the sort returns a permutation of its input |
| Sorting.SortBySorted | server.js:122 | the sort's output is ordered by any consistent comparator |
| Sorting.SortByStable | server.js:122 | elements the comparator ties keep their input order, as `Array.prototype.sort` does |
| Sorting.SortByMembers | server.js:122 | the sort keeps exactly the input's elements |
| JsNumbers.ToInt32 | server.js:84 | `Number(x) \| 0` is the 32-bit wrap-around of an integer and 0 for NaN or an infinity |
| JsNumbers.ToInt32Wraps | server.js:84 | a score of 2^32 + 5 wraps to 5, 2^32 - 5 wraps to -5 and NaN becomes 0, so the range check sees the wrapped value |
| JsNumbers.SliceCount | server.js:131 | `Math.max(1, Math.min(100, Number(q \|\| 10)))` is 10 when absent, clamps a number to 1..100 (below 1 and -Infinity give 1, above 100 and Infinity give 100), keeps one already in range, and is 0 for NaN |
| Codes.AlphabetDistinct | server.js:32 | the code alphabet has 32 different symbols |
| Codes.AlphabetExcludesLookAlikes | server.js:32 | the alphabet leaves out 0, O, I and 1 |
| Codes.GeneratePrizeCode | server.js:33-34 | a generated code is "DRM-" and four alphabet symbols |
| PublicCodes.Symbol | server.js:41-42 | a digest byte maps to `alphabet[byte % 32]` |
| PublicCodes.PublicCode | server.js:37-46 | the display code is "PLY-" and, at position 4 + k, the symbol of digest byte k |
| PublicCodes.PublicCodeShape | server.js:37-46 | every display code is 8 long, starts with "PLY-", and ends in four alphabet symbols |
| PublicCodes.PublicCodeFor | server.js:37-46 | the loop over the digest builds exactly `PublicCode(sha256(salt + "\|" + player))` |
| PublicCodes.PublicCodeDiffers | server.js:40-42 | digests whose first four bytes map to different symbols give different display codes |
| Auth.AdminToken | server.js:14 | the admin token is the environment's value when it is non-empty, and "changeme" otherwise |
| Auth.AdminGuard | server.js:48-52 | a request passes exactly when the header token, or the query token when there is no header, is non-empty and equals the admin token |
| Auth.HeaderShadowsQuery | server.js:49 | a wrong header fails even alongside a right query token |
| Ranking.UpTo | server.js:229 | the cutoff pool holds exactly the entries with `ts <= cutoff`, and the whole log when there is no cutoff |
| Ranking.UpToKeepsOrder | server.js:135 | filtering by cutoff keeps log order |
| Ranking.Count | server.js:113-114 | `attemptsByPlayer` is zero exactly when the player has no entry, and at most the log's length; `Ranking.CountIsFilter` proves it is the number of the player's entries |
| Ranking.CountIsFilter | server.js:113-114 | `attemptsByPlayer` is the number of the player's entries: the length of the log filtered to them |
| Ranking.TallySummarizes | server.js:115-121 | the `bestMap` fold yields one row per player of the log, each holding the player's highest score, the earliest timestamp with that score, and their attempt count, in first-seen order |
| Ranking.RowLessIsStrictWeakOrder | server.js:122 | the comparator (score desc, ts asc, attempts asc) is a strict weak order |
| Ranking.RankFacts | server.js:112-122 | the ranking has one row per distinct player, covers every player, holds each player's best, is sorted by the comparator, and keeps full ties in first-seen order |
| Ranking.RankPrefix | server.js:160-162 | every prefix of the ranking, as `slice` cuts it, keeps one row per player, each player's best, the comparator order and the first-seen order of ties |
| Ranking.RankMembers | server.js:122 | the ranking's rows are exactly the fold's rows |
| Ranking.RankSize | server.js:125 | the ranking has as many rows as there are distinct players |
| Ranking.RankRespectsOrder | server.js:122 | a row that beats another under the comparator comes first |
| Ranking.EntryLessIsStrictWeakOrder | server.js:139 | the attempts-mode comparator (score desc, ts asc) is a strict weak order |
| Ranking.RankEntriesFacts | server.js:138-139 | attempts mode is a permutation of the pool, sorted by the comparator, with ties in log order |
| Ranking.PersonalBest | server.js:99-101 | `best` is at least every score of the player, is one of them or the seed 0, and is never negative |
| Registry.Fresh | server.js:188-190 | a new record expires exactly seven days after issue and is unused |
| Registry.CodeIndex | server.js:199 | the lookup finds the first record with the code, or reports none |
| Registry.OwnerIndex | server.js:180 | the lookup finds the first record of the player, or reports none |
| Registry.CodeOrNull | server.js:108 | `pc?.code \|\| null` is the record's code when there is a record and its code is non-empty |
| Registry.FirstCodeOf | server.js:146 | the leaderboard's code column is non-null exactly when the player's first record has a non-empty code, and is then that code |
| Registry.IssuedBeforeIsStrictWeakOrder | server.js:106 | ordering records by `issued_at` is a strict weak order |
| Registry.LatestCodeIsLatest | server.js:104-107 | the response's record is null exactly when the player has none; otherwise it is theirs, with the greatest `issued_at` |
| Registry.LatestCodeIsOnlyCode | server.js:104-107 | with one code per player, the latest record is the player's only one |
| Registry.Status | server.js:199-205 | status precedence: not found, then used, then expired strictly after `expires_at`, else valid, with the fields of the record found |
| Registry.ExpiryBoundary | server.js:204 | a code is still valid at its expiry instant and expired one millisecond later |
| Registry.FreshCodeLifetime | server.js:189 | a freshly issued, not colliding code is valid up to seven days and expired after |
| Registry.UsedByValue | server.js:218 | `used_by` is null for an empty value and otherwise the value cut to 64 characters |
| Registry.Redeem | server.js:218 | redeeming sets `used_at` and `used_by` on that record and changes nothing else |
| Registry.RedeemedStaysUsed | server.js:203 | a redeemed code reports "used" at every later time |
| Registry.StatusUnchangedByAppend | server.js:199 | appending records never changes the status of a code already present |
| Snapshots.HasCutoff | server.js:244 | the existence check finds a row stored for that exact cutoff |
| Snapshots.SnapshotRows | server.js:246-248 | the i-th ranked row is stored with id `start + i + 1`, rank `i + 1`, its player and score, and a null code |
| Snapshots.RankBeforeIsStrictWeakOrder | server.js:275 | ordering snapshot rows by rank is a strict weak order |
| Snapshots.WinnersAreStoredInRankOrder | server.js:273-276 | winners are at most three rows, all stored for the cutoff, in ascending rank |
| Snapshots.WinnersAreTopThree | server.js:273-276 | a stored row of the cutoff is listed, or three rows of no greater rank are |
| Snapshots.WinnersOfFreshSnapshot | server.js:244-250 | after the first finalize of a cutoff, the winners are the first three rows it stored |
| Leaderboard.CutoffOf | server.js:132 | the cutoff counts exactly when it holds an ISO timestamp |
| Leaderboard.RowAt | server.js:141-148 | a response row has rank i + 1, the entry's fields, the first code of the player and their display code |
| Leaderboard.Board | server.js:130-174 | at most 100 rows, ranked 1..n, each with the player's first code and display code |
| Leaderboard.BestBoard | server.js:150-172 | best mode lists the first `min(limit, players)` rows of the ranking of the pool, row i being ranking row i: distinct players, each with their best entry in the pool, by score desc then ts asc |
| Leaderboard.BestBoardRespectsCutoff | server.js:135 | with a cutoff, no row's timestamp is after it |
| Leaderboard.AttemptsBoard | server.js:137-149 | attempts mode lists `min(limit, entries)` raw entries of the pool, by score desc then ts asc, ties in log order |
| Backend.PublicSalt | server.js:36 | the salt is the environment's value when it is non-empty, and "pub_salt_change_me" otherwise |
| Backend.TimestampOf | server.js:85-86 | the client's timestamp is kept when `isIso` accepts it, else the server clock is used |
| Backend.Unawarded | server.js:254-256 | the positions among the winners of players without a code are exactly those, in increasing order |
| Backend.BestIsMax | server.js:99-102 | `best === score` exactly when no entry of the player scores higher |
| Backend.SubmitterIsRanked | server.js:123-125 | the submitter always has a row, so `rank` is never null, and `total_players` counts distinct players |
| Backend.StandingMeaning | server.js:99-127 | the score response: `best` iff no higher entry; rank is the 1-based position in the whole-log ranking; distinct-player count; latest prize code; display code |
| Backend.NoneUnawarded | server.js:255-256 | once every winner holds a code, finalize has nobody left to award |
| Backend.AwardedBelongElsewhere | server.js:254-256 | codes issued earlier in the loop belong to other winners, so a winner is awarded iff they held no code before finalize |
| Backend.FinalRowsFacts | server.js:229-241 | finalize's rows are the first `min(top, players)` rows of the ranking of the entries up to the cutoff: distinct players, each with their best entry then and their attempt count, sorted, full ties in first-seen order; the first three are distinct |
| Backend.NothingNew | server.js:244-264 | when the cutoff is stored (or has no rows) and every winner holds a code, finalize adds no prize code, no audit record and no snapshot row |
| Backend.Server.constructor | server.js:19-27 | the server starts with four empty collections and the configured token and salt |
| Backend.Server.Log | server.js:54-67 | one audit record with the next id is appended |
| Backend.Server.AddScore | server.js:92 | an accepted entry joins `scores` with id length + 1, and nothing else changes |
| Backend.Server.SubmitScore | server.js:80-128 | refused iff the cut id is empty or the wrapped score is outside [0, 1000000], logging a reject; otherwise exactly one entry with id length + 1 is appended and the response is `Standing` of the new log |
| Backend.Server.DrawCode | server.js:182-187 | up to ten draws; a code already in use is returned only after the tenth |
| Backend.Server.IssueCode | server.js:177-194 | 401 without the token; 400 for an empty id or non-finite rank; a player holding a code gets it back and nothing changes; otherwise one fresh, unused, week-long record and one audit record are appended, after one to ten draws, and a code already in use only after the tenth |
| Backend.Server.VerifyCode | server.js:196-206 | a read-only status report, with 401 and 400 as for the other admin handlers |
| Backend.Server.UseCode | server.js:208-221 | fails as the status says (not found, already used, expired); a valid code is redeemed in that record only, which then reports "used" at every time |
| Backend.Server.SaveSnapshot | server.js:244-250 | rows are stored under the cutoff, ranked by position, only when no row for that cutoff exists |
| Backend.Server.AwardWinners | server.js:252-265 | each winner without a code, in order, gets one fresh record ranked by position and one audit record; afterwards every winner holds a code; the count is the number awarded |
| Backend.Server.IssueTo | server.js:255-263 | a player without a code gets one fresh record and one audit record |
| Backend.Server.AwardOne | server.js:254-264 | one turn of the loop awards winner i exactly when they held no code before finalize |
| Backend.Server.Finalize | server.js:223-268 | 401, then 400 for a non-ISO cutoff, with no change; otherwise the snapshot is written once per cutoff, the top three of the live ranking are returned and awarded, and `issued_count` counts those awarded |
| Backend.Server.WinnersOf | server.js:270-278 | 401, then 400 for a non-ISO cutoff; otherwise the stored rows of the cutoff, as `Snapshots.Winners` describes |
| Scenarios.FinalizeTwice | server.js:244-267 | finalizing a cutoff twice returns the same winners, issues nothing the second time, and stores the snapshot at most once |
| Scenarios.FinalizeAgain | server.js:223-267 | finalizing a stored cutoff whose winners all hold codes names the same winners, counts zero issued, and changes no collection |
| Scenarios.SecondRedemptionFails | server.js:215 | a code redeemed once is reported already used on a second attempt |
| Scenarios.IssueThenVerify | server.js:188-205 | a code just issued, not colliding with an older one, verifies as valid for its player and rank until a week later, then as expired |
| AsWritten.IssueCodeAsWritten | server.js:177-194 | as written, issue-code fails with a 500 exactly when it would issue a code, so it never issues one |
| AsWritten.UseCodeAsWritten | server.js:208-212 | as written, use-code fails with a 500 on every authorized request with a code |
| AsWritten.NewPlayerGetsNoCode | server.js:185 | a concrete request for a new player that the written handler turns into a 500 |
| AsWritten.ValidCodeCannotBeRedeemed | server.js:211 | a concrete valid code that the written handler cannot redeem |

## Left out

- The game front-end (game.js): rendering, input, audio and physics have no part in the backend.
- Express routing, JSON body parsing and static files: a handler is a method, and HTTP statuses are result constructors.
- The rate limiter on score submission: its window logic is inside `express-rate-limit`, which is not part of this model.
- lowdb persistence: the collections live in memory. The model neither reads the file at start-up nor writes it. The server starts empty.
- The 500 paths from a failing write (server.js:94-96 and the uncaught `writeDB` calls): writes never fail here.
- Audit records keep only their id, time, action and player. `detail`, `ip` and `ua` are not kept, and the swallowed errors of `log` are not modelled.
- SHA-256 is a function parameter. nanoid's random draws are nondeterministic choices of alphabet symbols.
- Date arithmetic and `toISOString`: `now` and `nowIso` are given as one instant, and `expires_at` is an integer of milliseconds.
- Request fields that are not strings, and fractional numbers: `Submission` carries strings, and a score is an integer, NaN or an infinity.
- The parsing of `top`, `limit` and `rank` query text into a number: the handlers receive the number.
- `localeCompare` is taken to agree with JavaScript `<`.
- Text.Less: compares strings by Unicode scalar values (Dafny's `char`), where JavaScript compares UTF-16 code units. The two orders differ only when a character outside the Basic Multilingual Plane meets one from U+E000 to U+FFFF: "\u{FFFF}" is below "\u{1F600}" here, and above it in JavaScript.
- Text.Truncate: counts Unicode scalar values, where `slice(0, 64)` counts UTF-16 code units; a string with characters outside the Basic Multilingual Plane keeps more of them here, and the model never splits a surrogate pair.
- Scenarios.IssueThenVerify: states the outcome only when the issued code does not collide with an older record; on a collision the older record answers.

## Findings

| source | as written | input that shows it | evidently intended | confidence | as-written member | corrected member |
|---|---|---|---|---|---|---|
| server.js:185 | the duplicate check calls `db.prepare(...)`, which the lowdb `LowSync` database does not have, so the handler throws and answers 500 for every player without a code | admin token "changeme", `player_id` "alice", `rank` 1, empty registry | look the candidate up in `prize_codes` by code and issue the code | high (not executed) | AsWritten.IssueCodeAsWritten, AsWritten.NewPlayerGetsNoCode | Backend.Server.IssueCode |
| server.js:211 | the code lookup calls `db.prepare(...)`, so every authorized request with a code answers 500 and no code is ever redeemed | admin token "changeme", code "DRM-2345" held unused and unexpired by "alice" | find the record in `prize_codes` by code, as verify-code does, and redeem it | high (not executed) | AsWritten.UseCodeAsWritten, AsWritten.ValidCodeCannotBeRedeemed | Backend.Server.UseCode |
