# Game platform backend: leaderboards, ratings, play analytics, users and guards

A Dafny model of the rule-bearing core of an Express/Mongoose game
platform backend. It covers five areas:

- **Leaderboards** (`leaderboard_model.dfy`, `leaderboard_service.dfy`, `rank_queries.dfy`). There is one
  table per (game, timeframe). A submitted score is inserted, or raises the
  user's stored score when it is higher. The table is then re-sorted by a
  stable descending sort. The read operations are:
  - the paged table view, with the caller's position;
  - one user's ranks across tables, ordered by rank over table size;
  - the global ranking (sum, distinct games, best score, then sort, limit and numbering).

  Admins can reset a table or remove a user from it. The collection is a class
  `LeaderboardStore` whose methods change its `tables` field in place.
- **Ratings** (`ratings.dfy`). There is one 1..5 rating per (user, game), kept
  by an upsert. Deletes are allowed for the owner or an admin. Game ratings are
  listed in four orders, and newest first for one user. Each game keeps a
  summary of its ratings. `getGameRatingStats` fills its 1..5 histogram and
  percentages in loops. The store is a class `RatingStore`.
- **Play analytics** (`play_analytics.dfy`):
  - `recordPlaySession` applies defaults to the request body and updates stats with `$inc`/`$max`/`$set`;
  - `recordUserAction` checks the action whitelist and applies the favourite effects with `$addToSet`/`$pull`;
  - the read-side aggregates;
  - `getUserAchievements` groups by game and keeps the first occurrence of each achievement name, in a nested loop.

  The store that changes is a class `AnalyticsStore`.
- **User documents** (`user_model.dfy`):
  - the email and password regular expressions, each proved equal to a declarative reading of the pattern;
  - the role and age-range enums;
  - trimming and lower-casing of username and email;
  - the default stats;
  - validation of a new document, path by path.
- **Request guards** (`jwt.dfy`):
  - the `Authorization: Bearer <token>` parser, with JavaScript's `split(" ")` modelled exactly;
  - authentication over a given signature verifier;
  - the `isAdmin` and `isUserOrAdmin` middlewares.

`common.dfy` holds shared values: identifiers, `findIndex`, an exact
`Math.round` of a quotient, JavaScript's `trim` and ASCII `toLowerCase`, and the
"own data or admin" guard that several handlers repeat. `stable_sort.dfy`
holds the stable descending insertion sort and its stability and
permutation lemmas.

Each request is one atomic step. Clocks ("now"), database lookups of
games and users, and the token signature check are parameters.

Behaviours of the code worth noting:
- After an applied score, `postScore` raises the user's `highestScore` only
  when the new score beats it. It does not refresh `lastActive` on every
  submission.
- A negative score reaches `score = 0` on a `const` binding, which throws.
  The request then ends in the 500 handler with nothing stored. The model's
  `SubmitFailed` outcome leaves the tables unchanged in that case.
- When no table exists yet, `Leaderboard.create` saves the empty table
  before the entry is added. If the later `save` then rejects the entry
  (a user with an empty username), the request answers 500 but the empty
  table stays stored; `Submit` keeps it too.
- The route that serves `getLeaderboard` (routes/leaderboard.routes.js:8)
  runs no authentication middleware, so no caller reaches the handler and
  `userRank` is always null there. `GetLeaderboard` takes the caller as an
  optional parameter and models both cases.

## Model

| member | source | states |
|---|---|---|
| LeaderboardModel.ParseTimeframe | models/Leaderboard.model.js:11-16 | a timeframe is accepted exactly when it is one of daily/weekly/monthly/allTime, and names that value |
| LeaderboardModel.TimeframeOrDefault | controllers/leaderboard.controller.js:11 | an absent timeframe defaults to allTime; a given one is used as sent |
| LeaderboardModel.NewTable | controllers/leaderboard.controller.js:36-42 | a created table has the game and timeframe, no entries, and lastUpdated at creation time |
| LeaderboardModel.FindEntry | controllers/leaderboard.controller.js:45-47 | -1 exactly when no entry is the user's, else the first index holding the user's entry |
| LeaderboardModel.FindEntryUnique | controllers/leaderboard.controller.js:45-47 | with one entry per user, findIndex finds the user's only entry |
| LeaderboardModel.EntryOf | controllers/leaderboard.controller.js:128-130 | a found entry is in the table and is the user's; none found exactly when the user has no entry |
| LeaderboardModel.EntryOfSameMembers | controllers/leaderboard.controller.js:75 | re-arranging a table with unique users does not change which entry is a user's |
| LeaderboardModel.FindTable | controllers/leaderboard.controller.js:34 | the table lookup by (game, timeframe): -1 exactly when none matches, else a matching table |
| LeaderboardModel.FindTableUnique | models/Leaderboard.model.js:49 | with the unique (game, timeframe) index, each table is the one found for its own key |
| LeaderboardModel.WithoutUser | controllers/leaderboard.controller.js:337-339 | the filter keeps exactly the entries of other users |
| LeaderboardModel.WithoutUserAppend | controllers/leaderboard.controller.js:337-339 | filtering distributes over concatenation |
| LeaderboardModel.WithoutAbsentUser | controllers/leaderboard.controller.js:337-339 | filtering out a user who has no entry changes nothing |
| LeaderboardModel.RemovalKeepsLengthIffAbsent | controllers/leaderboard.controller.js:336-344 | the length is unchanged after the filter exactly when the user had no entry (the 404 test) |
| LeaderboardModel.WithoutUserKeepsValid | controllers/leaderboard.controller.js:337-339 | removal keeps one entry per user, well-formed entries and descending order |
| LeaderboardModel.FilterKeepsOrder | controllers/leaderboard.controller.js:337-339 | the remaining entries stay unique and descending |
| LeaderboardModel.WithoutUserEntries | controllers/leaderboard.controller.js:337-339 | after removal every other user's entry is as before and the removed user has none |
| LeaderboardService.CheckScore | controllers/leaderboard.controller.js:19-25 | missing, non-numeric or zero gives 400; negative throws (500); otherwise the score is accepted and positive |
| LeaderboardService.RaisedMembers | controllers/leaderboard.controller.js:45-69 | the update keeps one entry per user, leaves other users' entries alone, gives the user exactly the submitted entry, and grows the table only for a new user |
| LeaderboardService.ApplyScoreRule | controllers/leaderboard.controller.js:50-75 | nothing is saved exactly when the stored score is at least the new one; otherwise the user's entry is the raised or new one, others are unchanged, lastUpdated is now |
| LeaderboardService.ApplyScoreKeepsValid | controllers/leaderboard.controller.js:50-75 | an applied submission keeps the table unique per user, well formed and sorted descending |
| LeaderboardService.ApplyScoreTies | controllers/leaderboard.controller.js:75 | after the re-sort, entries with equal scores keep their previous relative order, with the submitted entry last among its ties |
| LeaderboardService.RaisedTies | controllers/leaderboard.controller.js:50-69 | before the re-sort, ties are the old ones minus the user, plus the submitted entry |
| LeaderboardService.SpliceTies | controllers/leaderboard.controller.js:52-54 | replacing an entry in place by a higher one changes the tie groups only by that entry |
| LeaderboardService.SubmitAllKeepsBest | controllers/leaderboard.controller.js:50-72 | over any run of submissions the stored score is the best of the old score and all submissions, and comes from one of them; other users are untouched |
| LeaderboardService.LeaderboardStore.constructor | models/Leaderboard.model.js:4-46 | an empty collection satisfies the invariant |
| LeaderboardService.TargetTable | controllers/leaderboard.controller.js:34-42 | the table written is the stored one for (game, timeframe), or a new one exactly when none is stored and the timeframe is one the enum admits |
| LeaderboardService.Submit | controllers/leaderboard.controller.js:7-95 | `postScore` on the store: its outcome and the store it leaves; SubmitRefusals, SubmitSucceeds, SubmitWritesBack, SubmitLeavesStore, SubmitRecordsScore and SubmitKeepsValid state what it does |
| LeaderboardService.SubmitRefusals | controllers/leaderboard.controller.js:13-77 | 404 exactly without the game, 400 exactly for a missing, non-numeric or zero score, 404 exactly without the user, 500 exactly for a negative score, a timeframe the enum rejects, or a new entry without a username |
| LeaderboardService.SubmitSucceeds | controllers/leaderboard.controller.js:44-87 | a ready submission answers 200 exactly when the stored score is at least the new one, and 201 exactly when it is applied |
| LeaderboardService.SubmitWritesBack | controllers/leaderboard.controller.js:36-86 | 201 writes the applied table back at its index, or appends it when the table was new, and raises the highest score only when beaten |
| LeaderboardService.SubmitLeavesStore | controllers/leaderboard.controller.js:36-60 | 200 returns the stored table and changes nothing; 500 after the table was created leaves the new empty table; every other outcome changes nothing |
| LeaderboardService.SubmitRecordsScore | controllers/leaderboard.controller.js:50-77 | after 201 the looked-up table holds the submitted score for the caller; after 200 its stored score is at least the submitted one |
| LeaderboardService.SubmitKeepsValid | controllers/leaderboard.controller.js:34-77 | a submission keeps the unique (game, timeframe) index and every table valid |
| LeaderboardService.FindTableAfterPut | controllers/leaderboard.controller.js:34 | after writing a table back or appending a new one, the lookup by (game, timeframe) finds it |
| LeaderboardService.LeaderboardStore.PostScore | controllers/leaderboard.controller.js:7-95 | the outcome and the new store are exactly those of `Submit`; the invariant is kept |
| LeaderboardService.ResetTable | controllers/leaderboard.controller.js:221-253 | `resetLeaderboard` on the store; ResetOutcomes and ResetKeepsValid state what it does |
| LeaderboardService.ResetOutcomes | controllers/leaderboard.controller.js:221-245 | 403 exactly for a non-admin, 404 exactly without a table, 200 otherwise; 200 empties that table and stamps it now, and nothing else changes |
| LeaderboardService.ResetKeepsValid | controllers/leaderboard.controller.js:232-239 | a reset keeps the store valid |
| LeaderboardService.LeaderboardStore.Reset | controllers/leaderboard.controller.js:221-253 | the outcome and the new store are exactly those of `ResetTable`; the invariant is kept |
| LeaderboardService.RemoveFrom | controllers/leaderboard.controller.js:319-361 | `deleteUserFromLeaderboard` on the store; RemoveOutcomes and RemoveKeepsValid state what it does |
| LeaderboardService.RemoveOutcomes | controllers/leaderboard.controller.js:319-350 | 403 exactly for a non-admin, 404 exactly without a table or without an entry of the user, 200 otherwise; 200 drops exactly that user's entries, stamps the table and leaves the other tables |
| LeaderboardService.RemoveKeepsValid | controllers/leaderboard.controller.js:338-350 | a removal keeps the store valid |
| LeaderboardService.LeaderboardStore.RemoveUser | controllers/leaderboard.controller.js:319-361 | the outcome and the new store are exactly those of `RemoveFrom`; the invariant is kept |
| LeaderboardService.PutKeepsValid | models/Leaderboard.model.js:49 | replacing a table under its key, or adding one with a fresh key, keeps the unique index and valid tables |
| RankQueries.SliceEnd | controllers/leaderboard.controller.js:146 | `slice(0, parseInt(limit))`: at most the length; the default 10; a negative limit counts from the end; NaN gives none |
| RankQueries.RankIn | controllers/leaderboard.controller.js:124-139 | a rank exactly when the caller has an entry; the position is 1-based, holds the caller's score and time, and no earlier entry is the caller's |
| RankQueries.GetLeaderboard | controllers/leaderboard.controller.js:98-159 | 404 exactly without the game; empty answer exactly without a table; otherwise a prefix of the entries of the sliced length, the full count and the caller's rank |
| RankQueries.PositionIsRank | controllers/leaderboard.controller.js:132-138 | in a valid table everyone above the reported position scored at least as much and everyone below at most as much |
| RankQueries.RowFor | controllers/leaderboard.controller.js:187-199 | rank = index+1 with 1 <= rank <= totalPlayers = table length, and the row carries that entry's score and time |
| RankQueries.RowsFor | controllers/leaderboard.controller.js:178-200 | a row for every table holding the user, and only for those |
| RankQueries.UserRanksCorrect | controllers/leaderboard.controller.js:177-208 | the sorted rows are a permutation of the per-table rows, ordered by ascending rank/totalPlayers, ties in table order |
| RankQueries.UserRanks | controllers/leaderboard.controller.js:177-210 | the rows of `getUserRanks` for one user; UserRanksCorrect states that they are the rows of RowsFor, sorted by rank over table size and stable |
| RankQueries.GetUserRanks | controllers/leaderboard.controller.js:164-175 | 403 exactly for another user's id without admin; otherwise the ranks of the named user or the caller |
| RankQueries.Contributions | controllers/leaderboard.controller.js:263 | `$unwind` gives one contribution per entry, in order |
| RankQueries.GroupByUserCorrect | controllers/leaderboard.controller.js:266-274 | each group holds one user's sum of scores, set of games, highest score and first username, and every user with an entry has one group |
| RankQueries.AddContributionCorrect | controllers/leaderboard.controller.js:266-274 | folding in one more entry keeps every group an exact summary |
| RankQueries.NoGroupNoContribution | controllers/leaderboard.controller.js:266-274 | a user with no entry has a zero total, no games, no maximum |
| RankQueries.AggregationLimit | controllers/leaderboard.controller.js:280 | `$limit` takes the default 10 or a positive parsed limit; zero, negative or NaN fails |
| RankQueries.NumberRows | controllers/leaderboard.controller.js:297-305 | one row per group, rank = index+1, fullName from the user or "Unknown" |
| RankQueries.RankedGroupsCorrect | controllers/leaderboard.controller.js:266-277 | the sorted groups are distinct per user, descending by total, exact summaries, and cover every user |
| RankQueries.GlobalRankings | controllers/leaderboard.controller.js:256-316 | the answer of `getGlobalRankings`; GlobalRankingsCorrect states its rows |
| RankQueries.GlobalRankingsCorrect | controllers/leaderboard.controller.js:256-316 | fails exactly on a bad limit; otherwise at most n rows of distinct users with exact totals, games, highest scores, ranks 1.., descending, and a left-out user totals no more than the last row |
| RankQueries.NumberedRowsCorrect | controllers/leaderboard.controller.js:297-305 | each numbered row summarises its user exactly and rows stay distinct and descending |
| RankQueries.LeftOutBelowLast | controllers/leaderboard.controller.js:277-280 | a user cut off by the limit totals no more than the last shown row, and the limit was reached |
| Ratings.TrimComments | models/Rating.model.js:22-25 | stored comments are the trimmed text, with white space at neither end |
| Ratings.FindRating | controllers/rating.controller.js:24 | the (user, game) lookup: -1 exactly when there is none |
| Ratings.FindRatingById | controllers/rating.controller.js:156 | the id lookup: -1 exactly when there is none |
| Ratings.RatingsOfMembers | controllers/rating.controller.js:84 | exactly the ratings of the game |
| Ratings.RatingsByMembers | controllers/rating.controller.js:136 | exactly the ratings by the user |
| Ratings.ScoreSumBounds | models/Rating.model.js:16-21 | the sum of n scores in 1..5 lies between n and 5n |
| Ratings.SummaryCorrect | controllers/rating.controller.js:244-280 | the summary counts the game's ratings; zero and zero exactly when none is left; otherwise the average in tenths is between 10 and 50 |
| Ratings.Revised | controllers/rating.controller.js:29-36 | the update keeps id, user, game and creation time, takes the sent score or keeps the old one, and replaces comments only when sent |
| Ratings.GetUserGameRating | controllers/rating.controller.js:99-118 | the caller's rating of the game, or 404 exactly when there is none |
| Ratings.Upsert | controllers/rating.controller.js:7-59 | `createOrUpdateRating` on the store; UpsertOutcomes, UpsertCorrect, UpsertKeepsOthers and UpsertKeepsValid state what it does |
| Ratings.UpsertOutcomes | controllers/rating.controller.js:7-59 | 404 without the game, 400 out of range, update exactly when a rating exists, create exactly when none exists and a score is sent, 500 when creating without a score; nothing changes unless created or updated |
| Ratings.UpsertKeepsValid | models/Rating.model.js:33 | the upsert keeps one rating per (user, game), distinct ids, trimmed comments and summaries that agree |
| Ratings.UpsertCorrect | controllers/rating.controller.js:29-51 | after create or update the caller's rating of the game is the returned one, with the new (or kept) score; the store grows only on create; the game's summary is refreshed |
| Ratings.UpsertKeepsOthers | controllers/rating.controller.js:29-46 | every other (user, game) rating is unchanged |
| Ratings.Delete | controllers/rating.controller.js:151-184 | `deleteRating` on the store; DeleteCorrect and DeleteKeepsValid state what it does |
| Ratings.DeleteCorrect | controllers/rating.controller.js:151-184 | 404 exactly for an unknown id, 403 exactly when neither owner nor admin, nothing changes then; otherwise exactly that rating goes and its game's summary is refreshed |
| Ratings.DeleteKeepsValid | controllers/rating.controller.js:170-173 | the delete keeps the store invariant |
| Ratings.RatingStore.constructor | models/Rating.model.js:3-30 | an empty store satisfies the invariant |
| Ratings.RatingStore.StoredRatingIsSummary | controllers/rating.controller.js:244-280 | every game's stored rating is the summary of its current ratings |
| Ratings.RatingStore.CreateOrUpdate | controllers/rating.controller.js:7-59 | the answer and new store state are those of the upsert, and the invariant is kept |
| Ratings.RatingStore.DeleteRating | controllers/rating.controller.js:151-184 | the answer and new store state are those of the delete, and the invariant is kept |
| Ratings.RatingStore.FindByIndexAndUpdate | controllers/rating.controller.js:31-35 | only the found rating changes: its score and comments when sent, its update time |
| Ratings.RatingStore.CreateRating | controllers/rating.controller.js:39-44 | one rating is appended, with the next id and both timestamps now |
| Ratings.RatingStore.UpdateGameAverageRating | controllers/rating.controller.js:244-280 | only the game's stored summary changes, to the summary of its current ratings |
| Ratings.RatingStore.GameRatingStats | controllers/rating.controller.js:187-241 | 404 exactly without the game; otherwise the stored average, a total, and five shares for scores 1..5 |
| Ratings.RefreshAgrees | controllers/rating.controller.js:244-280 | refreshing the changed game's summary restores agreement for all games |
| Ratings.UpdatePreserves | controllers/rating.controller.js:31-35 | an in-place update keeps the store invariant |
| Ratings.AppendPreserves | controllers/rating.controller.js:39-44 | a create with a fresh id and an unused (user, game) keeps the store invariant |
| Ratings.RemovePreserves | controllers/rating.controller.js:170 | a removal keeps the store invariant |
| Ratings.RatingsOfAppend | controllers/rating.controller.js:247-256 | the game's ratings of a concatenation are the concatenation of its ratings |
| Ratings.ReplaceKeepsOthers | controllers/rating.controller.js:31-35 | an update leaves the summaries of other games unchanged |
| Ratings.RemoveKeepsOthers | controllers/rating.controller.js:170 | a delete leaves the summaries of other games unchanged |
| Ratings.AppendKeepsOthers | controllers/rating.controller.js:39-44 | a create leaves the summaries of other games unchanged |
| Ratings.ParseSort | controllers/rating.controller.js:72-81 | oldest, highest and lowest map to their orders; exactly every other value (or none) means newest first |
| Ratings.SortRatingsCorrect | controllers/rating.controller.js:84-86 | the listing is a permutation of the ratings in the chosen order |
| Ratings.GameRatingsCorrect | controllers/rating.controller.js:62-96 | 404 exactly without the game; otherwise exactly the game's ratings, each once, in the order asked for |
| Ratings.UserRatingsCorrect | controllers/rating.controller.js:121-148 | 403 exactly for another user's id without admin; otherwise exactly that user's ratings, newest first |
| Ratings.FillDistribution | controllers/rating.controller.js:209-217 | every score 1..5 is a key, holding its count (0 when there are none) |
| Ratings.Percentages | controllers/rating.controller.js:219-231 | the total is the sum of the five counts, and the shares are those of scores 1..5 in order |
| Ratings.ScoreGroupsCorrect | controllers/rating.controller.js:198-207 | the `$group` result holds one count per score that has ratings, and only those |
| Ratings.CountsCoverAll | controllers/rating.controller.js:220 | the five counts add up to the number of ratings |
| Ratings.CountScoreBound | controllers/rating.controller.js:225-230 | a count never exceeds the number of ratings |
| Ratings.DistributionCorrect | controllers/rating.controller.js:220-230 | totalRatings is the number of the game's ratings, each percentage is at most 100, and every share is 0 when there are none |
| Common.RoundedQuotientNearest | controllers/rating.controller.js:264 | the exact nearest integer to n/d, halves rounded up, as Math.round |
| Common.RoundedBetween | controllers/rating.controller.js:264 | rounding a quotient between two integers stays between them |
| Common.RoundedPercentNearest | controllers/rating.controller.js:229 | Math.round(part/whole*100): the nearest whole percentage, at most 100 for a part of the whole |
| Common.TrimRemovesOnlySpace | models/User.model.js:9 | trim keeps an infix and removes only white space from both ends |
| Common.TrimIdempotent | models/User.model.js:9 | trimming twice equals trimming once |
| Common.TrimmedIsFixed | models/User.model.js:9 | trim leaves a string unchanged exactly when neither end is white space |
| Common.Lower | models/User.model.js:15 | same length, each character lower-cased |
| Common.LowerIdempotent | models/User.model.js:15 | lower-casing twice equals lower-casing once |
| StableSort.SortDesc | controllers/leaderboard.controller.js:75 | the result is a permutation of the input, sorted descending by the key |
| StableSort.SortStable | controllers/leaderboard.controller.js:75 | elements with equal keys keep their relative order |
| StableSort.SortSortedIsIdentity | controllers/leaderboard.controller.js:75 | sorting an already sorted sequence changes nothing |
| StableSort.SortDistinct | controllers/leaderboard.controller.js:75 | sorting keeps distinct identities distinct |
| UserModel.Any | models/User.model.js:36 | true exactly when some character is in the class |
| UserModel.ValidPassword | models/User.model.js:34-38 | a valid password has at least five characters |
| UserModel.PasswordMatchesPattern | models/User.model.js:36 | valid exactly when the pattern matches: an uppercase letter, a digit, a special character and a lowercase letter, and five or more characters no one of which ends a line |
| UserModel.LastIndexOf | models/User.model.js:26 | the last position of the character, or -1 |
| UserModel.ValidEmail | models/User.model.js:24-27 | a valid email contains an @ |
| UserModel.EmailSplitUnique | models/User.model.js:26 | a matching split has its @ at the first @ and its last label after the last dot |
| UserModel.EmailMatchesPattern | models/User.model.js:26 | valid exactly when the anchored pattern matches: local part of word, - and . characters, @, one or more labels each followed by a dot, a last label of 2 to 4 characters |
| UserModel.ParseRole | models/User.model.js:44-49 | an absent role is "user"; a given one is accepted exactly when it is user or admin, and names it |
| UserModel.ParseAgeRange | models/User.model.js:50-54 | accepted exactly when it is one of the seven bands, and names it |
| UserModel.LowerTrimCommute | models/User.model.js:11-23 | lower-casing and trimming commute, so the setter order does not matter |
| UserModel.NormaliseIdempotent | models/User.model.js:11-23 | a stored username or email normalises to itself |
| UserModel.NormalisedShape | models/User.model.js:11-23 | a normalised value has no uppercase letter and no white space at either end |
| UserModel.NewStats | models/User.model.js:62-79 | play time, games played and highest score start at 0, lastActive at creation |
| UserModel.NewUser | models/User.model.js:4-86 | rejected exactly when some field fails, listing exactly the failing paths; an accepted document holds the trimmed name, normalised username and valid normalised email, the valid password, the role sent (default user), the age band, no favourites and default stats |
| UserModel.AcceptedIsNormal | models/User.model.js:11-23 | an accepted user's username and email are already normal |
| Jwt.IndexOf | middleware/jwt.middleware.js:17 | the first position of the character, or -1 exactly when absent |
| Jwt.Split | middleware/jwt.middleware.js:17 | `split(" ")`: at least one piece, and no piece contains the separator |
| Jwt.SplitJoin | middleware/jwt.middleware.js:17 | joining the pieces with the separator gives the string back |
| Jwt.SplitHead | middleware/jwt.middleware.js:17-20 | the first piece ends at the first separator; there is a second piece exactly when there is a separator |
| Jwt.FirstPiece | middleware/jwt.middleware.js:17 | the first piece is a space-free prefix ending at a separator or at the end |
| Jwt.GetTokenFromHeaders | middleware/jwt.middleware.js:13-25 | a missing or empty header yields null |
| Jwt.SchemeWord | middleware/jwt.middleware.js:17 | the first segment is "Bearer" exactly when the header is "Bearer" or starts with "Bearer " |
| Jwt.TokenFromHeaderText | middleware/jwt.middleware.js:13-25 | undefined exactly for "Bearer" alone; a token exactly when the header starts with "Bearer ", the token running to the next space or the end; null otherwise |
| Jwt.BearerRoundTrip | middleware/jwt.middleware.js:16-21 | "Bearer " followed by a space-free token yields that token, whatever follows after another space |
| Jwt.PrefixesWithoutSpace | middleware/jwt.middleware.js:20 | the second segment is determined by the header |
| Jwt.PayloadFor | controllers/auth.controller.js:85 | the payload carries the user's id and isAdmin exactly for the admin role |
| Jwt.Authenticate | middleware/jwt.middleware.js:5-10 | a request is authenticated exactly when a non-empty token is found and verifies, with the verified payload |
| Jwt.IsAdminGuard | middleware/jwt.middleware.js:28-33 | through exactly for an admin, 403 otherwise |
| Jwt.IsUserOrAdmin | middleware/jwt.middleware.js:36-49 | through exactly for an admin or when params.userId is the caller's id |
| Jwt.GuardMatchesHandlers | middleware/jwt.middleware.js:36-49 | with a userId the guard and the handlers' own check agree; without one the handlers serve the caller but the guard refuses a non-admin |
| Jwt.AdminPassesEverything | middleware/jwt.middleware.js:28-49 | an admin passes both guards; a user passes isAdmin never and isUserOrAdmin only for their own id |
| PlayAnalytics.PlaySession | controllers/playAnalytics.controller.js:14-42 | the defaults score 0, duration 0, not completed, level 1, desktop, level not completed, no achievements; every sent value (score, duration, completed, level, device, level completed, achievements) is kept; the action is "play" |
| PlayAnalytics.RecordPlay | controllers/playAnalytics.controller.js:24-28 | 404 exactly for an unknown game, with nothing changed |
| PlayAnalytics.RecordPlayEffect | controllers/playAnalytics.controller.js:31-57 | the session is recorded, the game's totalPlays goes up by 1, the user's play time by the duration and games played by 1, the highest score becomes the max, lastActive is now; nothing else changes |
| PlayAnalytics.RecordPlayKeepsValid | controllers/playAnalytics.controller.js:45-57 | recording a play keeps every favourites list free of duplicates |
| PlayAnalytics.PlayAllTotals | controllers/playAnalytics.controller.js:50-57 | over any run of plays, play time grows by the durations' sum, games played by the count, and the highest score is the best of the old one and every score |
| PlayAnalytics.ActionRecord | controllers/playAnalytics.controller.js:205-211 | the action record holds the user, game, action and time, and the device sent, or desktop when none is sent |
| PlayAnalytics.AddToSet | controllers/playAnalytics.controller.js:216-218 | `$addToSet`: the game is present afterwards; unchanged if it was there, appended otherwise |
| PlayAnalytics.Pull | controllers/playAnalytics.controller.js:221 | `$pull`: exactly the other games remain |
| PlayAnalytics.AddToSetIdempotent | controllers/playAnalytics.controller.js:216-218 | adding the same game twice equals adding it once |
| PlayAnalytics.AddToSetKeepsDistinct | controllers/playAnalytics.controller.js:216-218 | adding a game keeps the list free of duplicates |
| PlayAnalytics.PullKeepsDistinct | controllers/playAnalytics.controller.js:221 | removing a game keeps the list free of duplicates |
| PlayAnalytics.RecordAction | controllers/playAnalytics.controller.js:187-237 | 400 exactly for a missing action or one off the list, before the 404 for an unknown game; neither changes anything |
| PlayAnalytics.FavouriteEffect | controllers/playAnalytics.controller.js:214-227 | the favourite branches of `recordUserAction` as written; FavouriteEffectLemma, UnfavouriteChangesNoFavourites and FavouriteHeldOnce state what they do |
| PlayAnalytics.FavouriteEffectLemma | controllers/playAnalytics.controller.js:214-227 | "favourite" records the action, adds 1 to favouriteCount, adds the game to the user's favourites as a set, and stamps lastActive; nothing else changes |
| PlayAnalytics.UnfavouriteChangesNoFavourites | controllers/playAnalytics.controller.js:214-227 | "unfavourite" and "view" record the action and only stamp lastActive: counts and favourites stay, since the branch tests "unfavorite" |
| PlayAnalytics.UnfavoriteBranchUnreachable | controllers/playAnalytics.controller.js:194-196 | the spelling "unfavorite" is refused by the whitelist, so its branch never runs |
| PlayAnalytics.FavouriteTwice | controllers/playAnalytics.controller.js:214-218 | favouriting twice leaves favourites as after once, but counts 2 |
| PlayAnalytics.RecordActionKeepsValid | controllers/playAnalytics.controller.js:213-227 | every action keeps favourites lists free of duplicates |
| PlayAnalytics.FavouriteHeldOnce | controllers/playAnalytics.controller.js:214-219 | under the invariant, after "favourite" the game is at exactly one place in the user's favourites, as `$addToSet` promises |
| PlayAnalytics.AnalyticsStore.RecordPlaySession | controllers/playAnalytics.controller.js:9-67 | the answer and new state are those of RecordPlay, and the invariant is kept |
| PlayAnalytics.AnalyticsStore.RecordUserAction | controllers/playAnalytics.controller.js:187-237 | the answer and new state are those of RecordAction, and the invariant is kept |
| PlayAnalytics.PlaysOf | controllers/playAnalytics.controller.js:117-122 | exactly the game's "play" records |
| PlayAnalytics.CompletedCount | controllers/playAnalytics.controller.js:144-146 | the completed sessions number no more than all sessions |
| PlayAnalytics.DurationMax | controllers/playAnalytics.controller.js:131 | `$max`: no duration exceeds it and some session has it |
| PlayAnalytics.CompletionRate | controllers/playAnalytics.controller.js:166-173 | the nearest whole percentage of completed sessions, at most 100, and 0 without sessions |
| PlayAnalytics.GetGameAnalytics | controllers/playAnalytics.controller.js:107-184 | 404 exactly without the game; totalPlays counts its plays; completionRate is the rounded completed share of its plays, at most 100; without plays the durations and rate are 0 |
| PlayAnalytics.GameDurationsCorrect | controllers/playAnalytics.controller.js:125-165 | max is the longest play's duration and total the sum of durations |
| PlayAnalytics.UserPlays | controllers/playAnalytics.controller.js:87-92 | exactly the user's "play" records |
| PlayAnalytics.GetUserPlayHistory | controllers/playAnalytics.controller.js:70-104 | 403 exactly for another user's id without admin; otherwise the user's plays sorted by playDate descending |
| PlayAnalytics.PlayHistoryCorrect | controllers/playAnalytics.controller.js:87-94 | the history is exactly the user's plays, each once, newest first |
| PlayAnalytics.FirstWith | controllers/playAnalytics.controller.js:277-279 | `find` by achievement name: the first index with that name, or -1 exactly when none |
| PlayAnalytics.GroupFor | controllers/playAnalytics.controller.js:268 | the group of the game: -1 exactly when none, else the first group of that game |
| PlayAnalytics.GroupAchievements | controllers/playAnalytics.controller.js:264-285 | the nested loop computes the grouping, record by record and achievement by achievement |
| PlayAnalytics.AddRecordTo | controllers/playAnalytics.controller.js:265-284 | one record creates its game's entry if missing and adds its new achievements, as `AddRecord` |
| PlayAnalytics.PushNew | controllers/playAnalytics.controller.js:275-284 | each achievement is pushed only when no achievement of its name is in the list yet |
| PlayAnalytics.AddNewAppend | controllers/playAnalytics.controller.js:275-284 | folding in two lists equals folding in one after the other |
| PlayAnalytics.Grouped | controllers/playAnalytics.controller.js:264-287 | the grouping of `getUserAchievements` as a fold over the records; GroupedCorrect and DedupKeepsFirst state what it yields |
| PlayAnalytics.GroupedCorrect | controllers/playAnalytics.controller.js:264-287 | one group per game, a group exactly for each game with records, each holding the de-duplicated achievements of that game's records in order |
| PlayAnalytics.AddRecordCorrect | controllers/playAnalytics.controller.js:265-285 | adding one record keeps the grouping exact |
| PlayAnalytics.GroupForAfter | controllers/playAnalytics.controller.js:268-273 | a new game's group is added at the end; existing groups keep their place |
| PlayAnalytics.AddRecordDistinct | controllers/playAnalytics.controller.js:268-273 | adding a record keeps one group per game |
| PlayAnalytics.AddRecordGames | controllers/playAnalytics.controller.js:268-273 | a game has a group exactly when it has a record |
| PlayAnalytics.AddRecordAchievements | controllers/playAnalytics.controller.js:275-284 | every group's achievements are the de-duplicated achievements of its game |
| PlayAnalytics.GroupAfterRecord | controllers/playAnalytics.controller.js:265-285 | one group after the record holds the de-duplicated achievements of its game |
| PlayAnalytics.NewGroupAchievements | controllers/playAnalytics.controller.js:268-273 | a game seen first has only the record's achievements |
| PlayAnalytics.OtherGroupAchievements | controllers/playAnalytics.controller.js:265-285 | a group of another game is untouched |
| PlayAnalytics.DedupKeepsFirst | controllers/playAnalytics.controller.js:275-284 | de-duplication keeps each name once, every name of the input, the first occurrence of each, in encounter order |
| PlayAnalytics.KeepDistinct | controllers/playAnalytics.controller.js:281-283 | a push only of a new name keeps names distinct |
| PlayAnalytics.KeepCovers | controllers/playAnalytics.controller.js:275-284 | every name seen so far is kept |
| PlayAnalytics.KeepTakesFirst | controllers/playAnalytics.controller.js:277-283 | each kept achievement is the first occurrence of its name |
| PlayAnalytics.KeepInOrder | controllers/playAnalytics.controller.js:281-283 | kept achievements are in the order their names first appear |
| PlayAnalytics.WithAchievements | controllers/playAnalytics.controller.js:255-258 | exactly the user's records with a non-empty achievement list |
| PlayAnalytics.GetUserAchievements | controllers/playAnalytics.controller.js:240-295 | 403 exactly for another user's id without admin; otherwise the grouping of the user's records newest first, one group per game, each keeping the first occurrence of every achievement name in encounter order |

## Left out

- Concurrency. The read-modify-write in `postScore` and the create-if-absent of a rating are each one atomic step here.
- Floating point. The rating average is an exact rounding to tenths of a rational (`Math.round(avg*10)/10`). The average play duration (controllers/playAnalytics.controller.js:161) is not modelled. Float rounding at exact halves is taken as exact.
- Scores, durations and times are integers. Non-integer JSON numbers are not modelled.
- Clocks (`new Date()`, `Date.now`) are a "now" parameter. Game and user lookups are a found flag or a map.
- `populate` is not modelled. A populated game that was deleted (which would make `record.game._id` throw) is not modelled either.
- `getPlatformAnalytics` is not modelled: its date arithmetic, `$lookup` and `$dateToString` pipelines are all database machinery.
- The PlayAnalytics schema enum spells `favorite`/`unfavorite` and has no `level`/`levelCompleted`/`achievementsEarned` fields, so Mongoose would reject or drop such records. The model follows the controller's rules and stores those fields as the controller sends them. The schema also requires `deviceType` to be one of `desktop`, `tablet` and `mobile`; with any other device `PlayAnalytics.create` throws and the handler answers 500 with nothing stored. RecordPlay and RecordAction do not check the device and record it as sent.
- Ids are opaque strings compared by equality, taken to be canonical lower-case ObjectId strings. ObjectId casting is not modelled: a malformed id makes `findById` throw and the handler answer 500 where the model answers 404, and an upper-case hex `userId` in `getUserRanks` (which the cast query matches but `toString() === userId` does not) throws in the source where RowsFor yields no rows.
- The Game schema has no `favouriteCount`. The model keeps the counter the controller increments.
- Mongoose casting and validation of undefined fields are not modelled. For example, `{ score: undefined }` in an update is taken as "keep the old score", and a create without a score ends in 500.
- `toLowerCase` is ASCII only. Unicode case mapping is not modelled.
- Mongo's order among equal sort keys is unspecified. The model chooses a stable order: the ratings listing, play history and achievements keep collection order among ties, and `$group` yields users in order of first appearance.
- The token signature check of express-jwt is a given verifier function.
- The unique indexes on username and email are not modelled.
- The auth controller (bcrypt, token signing) is not modelled, except the `isAdmin = role === "admin"` payload rule.
- Jwt.GetTokenFromHeaders: its own contract states only the null cases. The full reading on the header text is stated by Jwt.TokenFromHeaderText.
- UserModel.ValidPassword and UserModel.ValidEmail: their own contracts are weak. The exact pattern equivalences are PasswordMatchesPattern and EmailMatchesPattern.
