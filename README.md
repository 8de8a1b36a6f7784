# HitsterWebApp game engine in Dafny

This project models the game engine of HitsterWebApp, a party game that runs as a web app. Each round, players guess the song, artist and release year of a track. The admin opens and closes rounds, sets the correct answers, scores them and ends or resets the game. Players see live standings and how their rank moved since the previous closed round.

The model covers all of the engine in `app.py`:

- answer normalisation (`normalize_text`);
- year and song/artist scoring (`score_year`, `score_song_artist`);
- per-round scoring (`compute_and_store_round_scores`);
- the standings query (`compute_standings`);
- the standings snapshot (`save_standings_snapshot`) and rank deltas (`get_rank_delta_for_latest`);
- the open-round lookup (`get_open_round`);
- the admin actions of `/admin`;
- the guess upsert of `/submit`.

The game's database becomes the fields of one class, `Engine.Game`:

- `difficulty` and `statusSetting` (the `game_status` setting, stored raw), plus `endedAt`.
- `rounds`: a map from round id to `Round`. `nextRoundId` is the next id SQLite's AUTOINCREMENT hands out. Deleting rows never lowers it.
- `guesses` and `history` (`standings_history`): maps keyed by the unique pair (round id, player id).
- `players`: the registered players, which the engine only reads.

Every admin action and the submission is a method that modifies exactly the fields its SQL statements touch. Its `ensures` gives the whole new state in terms of specification functions. The properties the game relies on are lemmas about those functions:

- Normalisation is idempotent, ignores letter case and ignores surrounding whitespace.
- The year table is a table and never increases with distance.
- Scoring changes only the scored round and is idempotent.
- Standings are a permutation of the players, ordered by points and then by case-folded name.
- Snapshot ranks are 1-based positions.
- Rank deltas behave as the three cases of the lookup say.

`Game.Valid()` is the invariant. It says:

- the difficulty is one of easy, hard and extreme;
- player ids are distinct;
- round ids are below `nextRoundId`;
- at most one round is open;
- every guess and history key names an existing round and a registered player, which are the schema's foreign keys.

Every action preserves `Valid()`.

Modules: `Wrappers` (Option), `Text` (whitespace, trimming, collapsing, ASCII case folding, NOCASE ordering), `Parsing` (the `int(...)` conversion), `Tables` (row types), `Scoring`, `Ranking` (standings, snapshots, rank deltas) and `Engine` (the class and its actions).

How the code behaves:

- **Ranks are ordinal.** Both the snapshot and the game page number the sorted standings 1, 2, 3, … (`enumerate(..., start=1)`). Tied players get different ranks.
- **Standings sum every guess.** The standings query sums `total_points` over all of a player's guesses, whatever the round's status. Guesses of the open round count with their current points, which stay 0 until the round is scored.
- **The easy table is fixed** at 5/4/3/2/1/0 for the distance bands 0, 1, 2, 3–5, 6–10 and above 10.
- **Rounds are created only by the admin's `create_round`.**
- **Years of more than 4300 digits are dropped.** CPython's `int()` (3.10.7 and later, which the `str | None` annotations of `app.py` already require to be 3.10 or later) raises `ValueError` for a literal of more than 4300 digits. The source catches it, so such a year counts as not given: a guess with a song or artist is still saved without a year, and the correct answers are stored with no year.
- **Years beyond 64 bits fail the request.** A shorter literal converts to a year of any size, but SQLite's INTEGER holds only -2^63..2^63-1. A larger guessed or correct year makes the driver raise `OverflowError` when the statement runs, so the request fails and nothing is stored. The model returns `YearTooLarge` from `Submit` and `Refused(YearOutOfRange)` from `SetAnswers` for such a year, with no change.

## Model

| member | source | states |
|---|---|---|
| Text.Lower | app.py:35 | case folding of one character: an upper-case ASCII letter becomes the lower-case letter at the same alphabet position, every other character is unchanged, the result is never upper-case, and whitespace stays whitespace |
| Text.LowerAll | app.py:35 | folds every character in place, keeping the length |
| Text.TrimLeft | app.py:33 | drops exactly the leading whitespace: the result is a suffix, what was dropped is all whitespace, and the result does not start with whitespace |
| Text.TrimRight | app.py:33 | drops exactly the trailing whitespace: the result is a prefix, what was dropped is all whitespace, and the result does not end with whitespace |
| Text.Trim | app.py:33 | `strip()`: the result has no whitespace at either end, and trimmed text is left unchanged |
| Text.TrimIsSlice | app.py:33 | the stripped text is a contiguous slice of the input, with only whitespace removed on both sides |
| Text.Collapse | app.py:34 | `re.sub(r"\s+", " ", ...)` (each whitespace run becoming one space is `Text.CollapseRun`): empty exactly when the input is, keeps the input's own first and last character when they are not whitespace, every whitespace character of the result is a single space, and no two whitespace characters are adjacent |
| Text.TrimLeftAppend | app.py:33-34 | when `a` ends with a non-space, the leading whitespace of `a + b` lies inside `a` |
| Text.CollapseAppend | app.py:34 | text that ends with a non-space collapses independently of what follows it |
| Text.CollapseRun | app.py:34 | a non-empty run of whitespace between a non-space (or the start) and a non-space (or the end) becomes exactly one space |
| Text.CollapseKeepsWords | app.py:34 | collapsing keeps every non-whitespace character of the input, in order, and adds none |
| Text.NonSpaceCons | app.py:34 | the non-whitespace characters of `c` followed by `t` are `c` (unless it is whitespace) followed by those of `t` |
| Text.NonSpaceAppend | app.py:34 | the non-whitespace characters of a concatenation are those of the two parts, in order |
| Text.NonSpaceOfSpace | app.py:34 | all-whitespace text has no non-whitespace characters |
| Text.SkipSpaceKeepsWords | app.py:33-34 | dropping leading whitespace drops no non-whitespace character |
| Text.Normalize | app.py:30-35 | `normalize_text` of a present value is "" exactly when the value is all whitespace |
| Text.TrimEmpty | app.py:33 | `strip()` leaves nothing exactly when the text is all whitespace |
| Text.NormalizeIsNormalized | app.py:30-35 | `normalize_text` yields trimmed, case-folded, single-spaced text |
| Text.CollapseStep | app.py:34 | on text that starts with a lone space or a non-space, collapsing keeps that first character and continues with the rest |
| Text.CollapseFixed | app.py:34 | collapsing is the identity on text whose only whitespace is isolated single spaces |
| Text.NormalizedIsFixed | app.py:30-35 | normalising already-normalised text changes nothing |
| Text.NormalizeIdempotent | app.py:30-35 | `normalize_text(normalize_text(s)) == normalize_text(s)` for every string |
| Text.TrimLeftLower | app.py:33-35 | dropping leading whitespace commutes with case folding |
| Text.TrimRightLower | app.py:33-35 | dropping trailing whitespace commutes with case folding |
| Text.LowerAllNormalized | app.py:35 | case folding of trimmed, single-spaced text yields normalised text |
| Text.LowerAllCons | app.py:35 | case folding of `c` followed by `t` is `c` folded followed by `t` folded |
| Text.CollapseLower | app.py:34-35 | collapsing whitespace commutes with case folding |
| Text.NormalizeIgnoresCase | app.py:30-35 | answers that differ only in ASCII letter case normalise to the same text |
| Text.TrimLeftSkips | app.py:33 | whitespace in front of text that starts with a non-space is exactly what leading trimming drops |
| Text.TrimRightSkips | app.py:33 | whitespace after text that ends with a non-space is exactly what trailing trimming drops |
| Text.TrimBetweenSpace | app.py:33 | `strip()` of trimmed text surrounded by whitespace is that text |
| Text.TrimSplit | app.py:33 | every text is its stripped form between an all-whitespace prefix and an all-whitespace suffix |
| Text.TrimIgnoresOuterSpace | app.py:33 | adding whitespace before or after a text does not change its `strip()` |
| Text.NormalizeIgnoresOuterSpace | app.py:30-35 | adding whitespace before or after an answer does not change its normal form |
| Text.LexLess | app.py:290 | the NOCASE tie order never relates equal names, and a proper prefix comes first |
| Text.LexLessMeans | app.py:290 | the recursive order is the textbook lexicographic one: `a` is less than `b` exactly when, at the first position where they differ or where `a` ends, `a` ends or has the smaller code point |
| Text.LexLessIrreflexive | app.py:290 | the name order used for ties is irreflexive |
| Text.LexLessTransitive | app.py:290 | the name order is transitive |
| Text.LexLessTotal | app.py:290 | any two distinct names are ordered one way or the other |
| Text.LexLessAsymmetric | app.py:290 | the name order is asymmetric |
| Text.LexLeqTransitive | app.py:290 | "not after" in the name order is transitive |
| Parsing.ParseOptionalInt | app.py:513-519 | `int(...)` under `try/except ValueError`: a value exactly for optionally signed decimal literals of at most 4300 digits, nothing for a longer literal, and the value's sign follows the literal's sign |
| Parsing.ShowNat | app.py:513-519 | decimal rendering produces a non-empty digit string |
| Parsing.DigitsOfShowNat | app.py:513-519 | the digits of a rendered number evaluate back to the number |
| Parsing.ParseShowRoundTrip | app.py:513-519 | every integer written in decimal, with a minus sign when negative, parses back to itself when its numeral has at most 4300 digits, and to nothing otherwise |
| Parsing.ParseDigits | app.py:513-519 | an unsigned digit string parses to its value when it has at most 4300 digits, and to nothing otherwise |
| Parsing.ParseNegativeDigits | app.py:513-519 | a minus sign followed by digits parses to the negated value under the same digit limit |
| Scoring.ScoreYear | app.py:211-233 | the year points lie between -5 and the difficulty's maximum, an exact year earns the maximum, and negative points come only from a distance above 10 (or, on hard, from a negative distance, which never happens for an absolute value) |
| Scoring.ScoreYearIsTable | app.py:211-233 | `score_year` is a lookup of the distance band (0, 1, 2, 3–5, 6–10, above 10) in a per-difficulty curve, with unknown difficulties scoring 0 |
| Scoring.ScoreYearNonIncreasing | app.py:211-233 | for every difficulty, a farther year never scores more than a nearer one |
| Scoring.NormalizeText | app.py:30-32 | a missing value and the empty string normalise to "", a present value normalises to "" exactly when it is all whitespace, and every result is in normal form |
| Scoring.ScoreSongArtist | app.py:236-239 | the result is 0 or 5, and it is 5 exactly when the correct value is non-empty and the normalised guess equals the normalised correct value |
| Scoring.NormalizedAnswerScores | app.py:236-239 | typing the normalised correct answer always earns the 5 points |
| Scoring.YearPoints | app.py:257-262 | year points are 0 unless both the guessed and the correct year are present, an exact year earns the maximum, and the points stay in range |
| Scoring.ScoreGuess | app.py:256-276 | a scored guess keeps its song, artist, year and `created_at`, is stamped `updated_at`, gets each point column from its scoring rule, and its total is the sum of the three |
| Scoring.TotalBounds | app.py:257-267 | for a known difficulty a guess's total lies in -5..20, and a negative total comes from negative year points |
| Scoring.ScoreRound | app.py:254-276 | scoring round `rid` keeps the table's keys, leaves other rounds' guesses untouched, and rescores every guess of `rid` |
| Scoring.ScoreGuessIdempotent | app.py:256-276 | rescoring a scored guess sets the same points, and at the same timestamp changes nothing |
| Scoring.ScoreRoundIdempotent | app.py:242-278 | running the round's scoring again, at any time, leaves every point value as the first run set it, and at the same timestamp leaves the table unchanged |
| Scoring.ScorePartStart | app.py:254-256 | before the loop nothing is scored yet: the partial table is the input |
| Scoring.ScorePartStep | app.py:256-276 | scoring one more pending guess extends the partial table by exactly that guess |
| Scoring.ScorePartDone | app.py:278 | with nothing pending, the partial table is the whole round's scoring |
| Ranking.TotalAt | app.py:286-288 | the LEFT JOIN contributes a guess's `total_points` when the player has a guess in the round, and 0 otherwise |
| Ranking.PlayerPoints | app.py:286-288 | with non-negative totals in every guess, a player's summed points are non-negative |
| Ranking.NoGuessesNoPoints | app.py:286-288 | `COALESCE(SUM(...), 0)`: a player without guesses has 0 points |
| Ranking.PointsFrame | app.py:286-288 | a player's sum depends only on that player's per-round totals |
| Ranking.PointsOneRound | app.py:286-288 | changing one round's total changes the sum by exactly the difference |
| Ranking.PointsIgnoreLaterRounds | app.py:286-288 | once all guesses lie below the bound, summing further adds nothing, so the sum covers all of the player's guesses |
| Ranking.Before | app.py:290 | `ORDER BY points DESC, name NOCASE ASC`: a row comes first only with at least as many points, more points always come first, and equal points with case-insensitively equal names are not ordered |
| Ranking.BeforeAsymmetric | app.py:290 | the standings order `points DESC, name NOCASE ASC` is asymmetric |
| Ranking.NotBeforeTransitive | app.py:290 | "not before" in the standings order is transitive |
| Ranking.Insert | app.py:290 | inserting a row adds exactly that row (as a multiset) |
| Ranking.InsertSorted | app.py:290 | inserting into sorted rows keeps them sorted |
| Ranking.InsertDistinct | app.py:290 | inserting a row with a new player id keeps the ids distinct |
| Ranking.SortRows | app.py:290 | sorting is a permutation of the rows |
| Ranking.SortRowsSorted | app.py:290 | sorted rows are ordered by the standings order |
| Ranking.SortRowsDistinct | app.py:290 | sorting keeps player ids distinct |
| Ranking.PlayerRows | app.py:285-289 | one row per player, in table order, carrying the player's summed points |
| Ranking.Standings | app.py:281-297 | the standings are a permutation of the per-player rows |
| Ranking.StandingsRowsArePlayers | app.py:281-297 | there are as many rows as players, each row is a registered player, and each row carries that player's summed points |
| Ranking.StandingsCoverPlayers | app.py:285-289 | the LEFT JOIN gives every player a row, and with distinct ids exactly one |
| Ranking.StandingsOrdered | app.py:290 | rows are ordered by points descending, then by case-folded name ascending |
| Ranking.StandingsWithoutGuesses | app.py:834-843 | with no guesses (after a reset) everybody stands at 0 points |
| Ranking.SnapshotEntries | app.py:303-311 | the snapshot rows of round `rid` are keyed by that round |
| Ranking.SnapshotKeys | app.py:303-311 | the snapshot has a row for exactly the players that appear in the standings |
| Ranking.SnapshotRanks | app.py:303-311 | with distinct players, the i-th standings row (0-based) is stored with rank i + 1 and its points |
| Ranking.SnapshotStep | app.py:303-312 | one more upsert in the loop extends the stored rows by the next position |
| Ranking.SnapshotNamesPlayers | app.py:300-313 | every snapshot row names round `rid` and a registered player |
| Ranking.SnapshotOfStandings | app.py:300-313 | the snapshot of the standings covers every player and names only registered players, and the i-th row is ranked i + 1 with its points |
| Ranking.LatestWith | app.py:196-199 | `... WHERE status=? ORDER BY id DESC LIMIT 1` below a bound: the found round has the status and no higher id below the bound does, and "none" means no round below the bound has it |
| Ranking.RankOf | app.py:329-333 | `{player_id: rank}` of a round's history rows: exactly the players with a row, and their stored rank |
| Ranking.RankChange | app.py:344-348 | one delta per player ranked in the latest round: previous rank minus latest rank, and 0 without a previous rank |
| Ranking.RankDelta | app.py:316-348 | no delta without a closed round; otherwise one delta for exactly the players ranked in the latest closed round |
| Ranking.RankDeltaNoClosedRound | app.py:318-322 | with no closed round the delta map is empty |
| Ranking.RankDeltaOneClosedRound | app.py:324-336 | with exactly one closed round, the players ranked in it are the keys and all have delta 0 |
| Ranking.RankDeltaBetweenRounds | app.py:338-348 | with a latest and a previous closed round, the keys are exactly the players ranked in the latest round, and such a player gets previous rank minus latest rank, or 0 without a previous rank |
| Engine.GameStatusOf | app.py:161-163 | `game_status()` is always "running" or "ended"; it is "ended" exactly when the trimmed, lower-cased setting is "ended"; and the two canonical values read back as themselves |
| Engine.DifficultyOf | app.py:742-744 | the stored difficulty is always easy, hard or extreme: a missing value is easy, a recognised value after trimming and lower-casing is kept, and anything else is easy |
| Engine.Blank | app.py:773-774 | `(value or "").strip() or None`: absent exactly when nothing but whitespace was typed, and otherwise the stripped text, which is non-empty and trimmed |
| Engine.YearField | app.py:775-781 | a year is present exactly when the trimmed field is an integer literal of at most 4300 digits |
| Engine.YearFieldOfNumeral | app.py:775-781 | a field holding a decimal numeral, possibly with a minus sign and surrounding whitespace, reads as that numeral's value, or as no year when the numeral has more than 4300 digits |
| Engine.Upsert | app.py:524-543 | the guess upsert adds only the (round, player) key and leaves every other row alone; the row gets the new song, artist, year and `updated_at`; an existing row keeps its points and `created_at`; a new row starts at 0 points with both timestamps `now` |
| Engine.UpsertIdempotent | app.py:524-543 | submitting the same guess twice leaves the table as one submission does |
| Engine.UpsertKeepsStandings | app.py:524-543 | a submission never changes the standings |
| Engine.ScoringChangesOneRound | app.py:242-278 | scoring round `rid` changes a player's points by exactly the change in that round's total |
| Engine.RefersGrows | app.py:80-108 | adding rounds keeps every foreign key valid |
| Engine.RefersUnion | app.py:98-108 | adding snapshot rows for an existing round and registered players keeps every foreign key valid |
| Engine.OpenNewRound | app.py:755-761 | inserting an open round when none is open leaves exactly that one open, and it is the one `get_open_round` finds |
| Engine.RefersInsert | app.py:98-108 | adding a guess key for an existing round and a registered player keeps every foreign key valid |
| Engine.KeepStatus | app.py:783-790 | rewriting a round's answers keeps the round ids and the at-most-one-open invariant |
| Engine.CloseOpenRound | app.py:804-807 | closing the open round keeps the ids and leaves no round open |
| Engine.RankDifferences | app.py:344-348 | the delta loop computes exactly the rank change of every player ranked in the latest round |
| Engine.UpsertSnapshot | app.py:303-312 | the snapshot loop overwrites the history with exactly the snapshot rows of the standings |
| Engine.Game.constructor | app.py:59-122 | the initial database: difficulty easy, status running, no `ended_at`, empty game tables, and the invariant holds |
| Engine.Game.IsEnded | app.py:161-171 | `is_game_ended()`: true for the stored value "ended" and false for "running" |
| Engine.Game.DifficultyLockedNow | app.py:184-186 | `difficulty_locked()`: true exactly when some round exists |
| Engine.Game.CurrentStandings | app.py:281-297 | `compute_standings()` for the current tables: one row per player, sorted by the standings order |
| Engine.Game.OpenRound | app.py:196-199 | `get_open_round()`: the result is an open round, the only one, and "none" means no round is open |
| Engine.Game.SetDifficulty | app.py:738-746 | refused once any round exists; otherwise stores the normalised difficulty; changes nothing else |
| Engine.Game.CreateRound | app.py:748-763 | refused when the game is ended or a round is open; otherwise inserts an open round with the trimmed question under the next id, which becomes the open round |
| Engine.Game.SetAnswers | app.py:765-792 | refused when ended or when no round is open; the request fails with nothing stored when the correct year lies outside SQLite's 64-bit INTEGER range; otherwise rewrites the open round's correct song, artist and year from the form and changes nothing else |
| Engine.Game.StoreAnswers | app.py:783-791 | the `UPDATE` of the open round: only that round's three answer columns change, and the invariant holds |
| Engine.Game.ComputeAndStoreRoundScores | app.py:242-278 | a missing round is a no-op; otherwise the guesses become the round's scoring and the invariant holds |
| Engine.Game.SaveStandingsSnapshot | app.py:300-313 | the history becomes the old history overwritten by the snapshot of the current standings for the round |
| Engine.Game.CloseAndScore | app.py:802-809 | scores the open round, marks it closed at `now` and snapshots the standings, after which no round is open |
| Engine.Game.CloseRound | app.py:794-810 | refused when ended or when no round is open; otherwise scores, closes and snapshots the open round |
| Engine.Game.EndGame | app.py:812-828 | already ended: nothing changes; otherwise any open round is scored, closed and snapshotted, and the game is marked ended at `now` |
| Engine.Game.ResumeGame | app.py:830-832 | the status becomes running with an empty `ended_at`, rounds stay as they are |
| Engine.Game.ResetGame | app.py:834-843 | rounds, guesses and history are emptied, the settings return to their defaults, and afterwards no round is open, difficulty is unlocked and everybody has 0 points |
| Engine.Game.Submit | app.py:495-546 | unknown player, ended game, no open round and an all-empty form are refused in that order, with no change; a year outside SQLite's 64-bit INTEGER range fails the request with nothing stored; otherwise the guess is upserted for (open round, player) |
| Engine.Game.StoreGuess | app.py:524-544 | the upsert for an existing round and a registered player: the guesses become the old ones with that upsert, and the invariant holds |
| Engine.Game.RankDeltaForLatest | app.py:316-348 | the result is the rank-delta map of the latest two closed rounds |

## Left out

- HTTP, Flask routing, sessions, templates, redirects and flash messages are left out. The actions return their outcome (`Reply`, `SubmitResult`) instead of a message or redirect.
- Admin authentication and the login/logout routes are left out. They guard the actions but do not change the game's state.
- Player registration and the `/api/...` endpoints are left out. `players` is an input to the model.
- The admin page's unknown-action fall-through is left out. It changes nothing.
- SQLite itself is not modelled: connections, transactions, `PRAGMA`s and commits. Each statement is an atomic update of one map.
- Concurrent requests are not modelled.
- The error page of a failed request (the `OverflowError` of an out-of-range year) is left out; the model keeps only its effect, an outcome with no change.
- `get_last_closed_round` is only modelled through `LatestWith` with status Closed. The result view built from it is not modelled.
- Clocks: every `utc_now_iso()` is the `now` parameter. One action uses a single `now` even where the source reads the clock several times.
- Text.Lower: approximates Python's `casefold()`/`lower()` and SQLite NOCASE by mapping ASCII 'A'..'Z' to 'a'..'z'. Non-ASCII case mappings are not modelled.
- Text.IsSpace: counts only space and '\t'..'\r' as `\s` and as `strip()` whitespace. The other characters Python treats as whitespace, '\x1c'..'\x1f' and the Unicode whitespace characters, are not modelled.
- Parsing.ParseOptionalInt: accepts `[+-]?[0-9]+` of at most 4300 digits, CPython's default limit. Python's `int()` also accepts underscores between digits and non-ASCII decimal digits, and the limit can be changed with `sys.set_int_max_str_digits` or is absent before CPython 3.10.7; those are not modelled.
- Ranking.Standings: SQL leaves the order of rows that tie on points and case-folded name unspecified. The model keeps player-table order for them, and its lemmas claim only the SQL guarantee.
- Ranking.PlayerPoints: sums the rounds with ids below `nextRoundId` rather than every guess row. Under `Game.Valid()` every guess lies in such a round, so `Ranking.PointsIgnoreLaterRounds` makes the two agree.
- Engine.Game.ComputeAndStoreRoundScores: uses the stored difficulty field. The source reads the raw setting, which only `init_db`, `set_difficulty` and `reset_game` write, both with a recognised value.
