# Table-tennis league engine: outcomes, standings, rotation, playoff bracket

This project models the decision logic of the league application in `app.py`: how a reported
match is scored and who won it, how reported matches fold into standings, how the weekly
round-robin rotation pairs the roster, how a playoff bracket is seeded (with play-in games when
the field is not a power of two), how winners advance automatically or by the administrator, who
the champion is, and how the bracket is laid out for display (round labels, display order and the
"feeds next match" connectors).

Modules, one per part of the engine:

- `MatchRecord` (`match_record.dfy`): a row of the matches table. It holds optional players,
  optional scores, three optional game slots, the reported and double-forfeit flags, the week,
  and the playoff round and match number.
- `Outcome` (`outcome.dfy`): game-score extraction, aggregate points, game-win counting, winner
  determination and the score summary.
- `ScoreInput` (`score_input.dfy`): validation of a best-of-three score form.
- `Standings` (`standings.dfy`): the per-player statistics fold (a `StatsTable` class whose
  `rows` map is updated in place), and the ranking sort with 1-based ranks. Every row of the
  players table is ranked.
- `RoundRobin` (`round_robin.dfy`): the circle-method rotation, and the weekly pairs taken from
  it.
- `Seeding` (`seeding.dfy`): the bracket plan for a seed order. It is either a direct round 1, or
  play-ins plus round-1 slots.
- `Advancement` (`advancement.dfy`): the matches table as a value. It gives the specification of
  round completion, winner collection, next-round creation, play-in placement, the automatic
  advance pass with its depth cap, the administrator's manual advance, and the champion lookup.
- `Bracket` (`bracket.dfy`): the class `League`. It holds the matches table, the next free row id
  and `currentPlayoffRound`. Its methods insert and update rows in loops, and each is proved equal
  to the `Advancement`/`Seeding` specification. The two rules that the findings below correct are
  parameters of the advancing methods: `strict` (a round advances only after every earlier round
  is complete) and `crownInPlayIns` (a lone play-in winner is crowned). With `strict = false` and
  `crownInPlayIns = true` the methods run the code as written; with the opposite values they run
  the corrected rules. Every method keeps the table well formed (`League.Valid`): row ids
  increase and stay below the next free id.
- `Presentation` (`presentation.dfy`): the match view and the report gate, round labels,
  per-round ordering and display indices, connectors, bracket finalization and the playoff
  preview.
- `Wrappers`, `Text` and `Sorting` are support modules: an option type, decimal rendering and
  Python string order, and a stable insertion sort that stands for Python's `sorted`/`list.sort`.

Player ids are positive integers, so Python's truthiness tests on ids (`if winner:`) coincide
with `is not None`. Python's `x or d` on optional numbers becomes `NumberOr(x, d)`: a missing
value or 0 falls back to `d`. Where `d` is 0, as in `aggregate_match_points` (app.py:293-295), it
is written `GetOr(0)`: replacing a 0 by 0 changes nothing, so only the missing value matters.

## Model

| member | source | states |
|---|---|---|
| Outcome.CompletedGames | app.py:276-284 | only games with both scores are kept, each one drawn from the match's game slots; nothing is dropped iff every slot is complete |
| Outcome.CompletedGamesAppend | app.py:278-283 | the games of two runs of slots are the games of the first run followed by those of the second, so each slot contributes its own game once and in order |
| Outcome.AggregatePoints | app.py:287-295 | with game scores the totals are the per-side sums of the games; without them they are score1/score2, missing counting 0 |
| Outcome.GameWins | app.py:298-306 | the two win counts never exceed the number of games, and they add up to it when no game is tied |
| Outcome.GameWinsAppend | app.py:298-306 | the win counts of two lists of games put together are the sums of their counts |
| Outcome.GameWinsCountGames | app.py:298-306 | the first count is the number of games whose first score is strictly greater, the second the number whose second score is strictly greater |
| Outcome.SwapScores | app.py:298-306 | swapping the sides of every game gives the same games mirrored, position by position |
| Outcome.GameWinsSwap | app.py:298-306 | counting wins on mirrored games swaps the two counts |
| Outcome.DetermineWinner | app.py:2376-2395 | a winner is always one of the two players, and a match with two players has a winner only when it is reported and not a double forfeit |
| Outcome.DetermineWinnerCases | app.py:2376-2395 | a match without player 2 is won by player 1; with game scores the side with more game wins wins and equal wins give no winner; otherwise the higher total wins, and a missing or equal total gives no winner |
| Outcome.ExtractGameScores | app.py:276-284 | at most three games are extracted |
| Outcome.ExtractGameScoresInOrder | app.py:276-284 | the extracted games are game 1, game 2 and game 3 in that order, each present exactly when both of its scores are |
| Outcome.ExtractGameScoresSwap | app.py:276-284 | swapping the players of a match mirrors its extracted games |
| Outcome.DetermineWinnerSymmetric | app.py:2376-2395 | with both players present, swapping the sides does not change who wins |
| Outcome.FormatMatchSummary | app.py:309-324 | no summary exactly when a two-player match is unreported and not forfeited; "Bye" exactly for a missing player 2; "Double Forfeit" exactly for a forfeited two-player match; a reported match without games shows its aggregate totals as "t1 - t2", and one with games shows "w1-w2 (details)" from its game wins and game details |
| Outcome.GameDetailsAppend | app.py:323 | the details of two runs of games are joined by one ", ", so every game's "s1-s2" is listed once, in game order |
| ScoreInput.ParseGame | app.py:460-483 | a game is skipped exactly when both fields are blank; an accepted game is the pair of integers entered; two integers are accepted exactly when both lie in 0..99 and differ, so a negative, over-99 or tied pair is an error |
| ScoreInput.ParsedScores | app.py:460-483 | an accepted form yields at most one score per game row, each a valid game |
| ScoreInput.ParsedScoresErrorSticks | app.py:460-483 | once an earlier game raises, the whole form raises the same error |
| ScoreInput.ParseBestOfThreeScores | app.py:460-483 | the loop over the game rows computes exactly the parsed-scores specification |
| ScoreInput.HalfFilledGameRejected | app.py:466-469 | a game with exactly one blank field makes the whole form fail |
| ScoreInput.FormFor | app.py:460-483 | a list of scores rendered as a form has one field pair per game row |
| ScoreInput.ParseFormRoundTrip | app.py:460-483 | parsing the form written from valid scores returns those scores |
| ScoreInput.ValidGameParsed | app.py:460-483 | a valid game entered as two integers is read back as that game |
| ScoreInput.ValidateBestOfThree | app.py:486-498 | accepts exactly the lists with at least two games where one side has exactly two wins and the other at most one, and then returns the win counts |
| ScoreInput.RecordReport | app.py:977-1008 | recording a report keeps the match's id, players, week, playoff flag, round and match number, marks it reported, clears the forfeit, and stores the per-side sums of the games as score1 and score2 |
| ScoreInput.ExtractRecordedGames | app.py:276-284 | the games read back from a recorded report are the games written, and the report's totals are the stored scores |
| ScoreInput.ValidatedReportWinner | app.py:2376-2395 | a validated best-of-three report makes the side with two game wins the winner |
| ScoreInput.ParsedThenValidated | app.py:460-498 | valid scores survive the form; a validated list has as many decided games as entries and at most three |
| Standings.MatchDeltas | app.py:1846-1875 | a double forfeit is one loss each and no points; otherwise the differentials cancel and the points are the aggregate totals; with game scores exactly one win and one loss, player 1 winning exactly when they won more games (so player 2 takes a game-win tie); with totals only, each side wins exactly when its total is higher, and equal totals decide nothing |
| Standings.ApplyMatch | app.py:1846-1875 | the fold keeps the same players and changes nothing when a player is missing or has no row; two different players each gain their side's increments; one player on both sides gains player 2's increments on top of player 1's; every other row stays as it was |
| Standings.StatsTable.constructor | app.py:1894-1907 | the table starts as the initial zeroed rows of the roster |
| Standings.StatsTable.Bump | app.py:1846-1875 | one row is increased by a delta; every other row is unchanged |
| Standings.StatsTable.ApplyMatchToStats | app.py:1846-1875 | updating the rows in place leaves exactly the rows the fold specification gives |
| Standings.ResultBumps | app.py:1846-1875 | the source's separate win/loss increments equal one combined increment per side |
| Standings.InitialStats | app.py:1894-1907 | every rostered player gets a row keyed by their id, carrying that player's names, with no wins, losses, points or point differential, and only rostered players do |
| Standings.RankedMatches | app.py:1878-1887 | exactly the reported two-player matches are kept, playoff matches only when requested, each as often as it occurs in the table |
| Standings.FoldStats | app.py:1909-1910 | folding the matches keeps the set of players |
| Standings.PlayerRows | app.py:1912-1921 | one row per player, in roster order |
| Standings.RowLeqTotalPreorder | app.py:1912-1921 | the five-part key (more wins, better differential, more points, then last name, first name) is a total preorder |
| Standings.Standings | app.py:1890-1924 | one ranked row per player, with ranks 1..n in order |
| Standings.StandingsArePermutationSorted | app.py:1890-1924 | the ranking is a permutation of the players' rows sorted by the five-part key |
| Standings.StandingsTiesKeepRosterOrder | app.py:1912-1921 | players whose rows tie on the whole key keep the order of the players table (Python's sort is stable) |
| Standings.StandingsListEveryPlayer | app.py:1890-1924 | every player appears with exactly their folded statistics |
| Standings.RankedRowsCover | app.py:1890-1924 | a permutation of the rows contains each row |
| Standings.FoldStatsKeepsIds | app.py:1846-1875 | each row stays keyed by its own player's id through the fold |
| Standings.CalculateRankings | app.py:1890-1924 | the method computes exactly the ranking specification |
| Standings.TallyStats | app.py:1909-1910 | the loop over matches computes exactly the fold of the initial rows |
| Standings.NumberRows | app.py:1923-1924 | the numbering loop gives every sorted row its 1-based position |
| Standings.SumDiffUpdate | app.py:1846-1875 | replacing one row changes the sum of differentials by that row's change |
| Standings.ApplyMatchKeepsDiffSum | app.py:1856-1860 | one match leaves the sum of all point differentials unchanged |
| Standings.FoldStatsKeepsDiffSum | app.py:1909-1910 | folding any matches leaves the sum of point differentials unchanged |
| Standings.Ids | app.py:1894-1907 | the ids of the roster, in order |
| Standings.SumDiffZero | app.py:1894-1907 | a table of zeroed rows has differential sum 0 |
| Standings.PointDiffsSumToZero | app.py:1890-1924 | across any standings with distinct ids, point differentials sum to 0 |
| RoundRobin.NormalizePair | app.py:362-369 | a pair holds the same two slots, in either order, with a bye (None) never in front of a player |
| RoundRobin.NormalizePairKeepsSlots | app.py:362-369 | normalizing keeps the two slots |
| RoundRobin.PrepareRotation | app.py:1966-1970 | an odd roster is padded to even length by one slot |
| RoundRobin.PrepareRotationContents | app.py:1966-1970 | the roster in order, followed by a bye slot when odd |
| RoundRobin.RotatePlayers | app.py:1982-1985 | the rotation keeps the length and the element at index 0 |
| RoundRobin.RotatePlayersPermutes | app.py:1982-1985 | one turn is a permutation of the slots |
| RoundRobin.RotatePlayersShifts | app.py:1982-1985 | the last element moves to index 1 and all others shift one step right |
| RoundRobin.CleanPairs | app.py:1988-1989 | cleaning never adds pairs |
| RoundRobin.CleanPairsProper | app.py:1988-1989 | no (None, None) pair survives; a list with a player in front of every pair is unchanged |
| RoundRobin.Rotated | app.py:1954-1963 | k rotations keep the length and the first element |
| RoundRobin.RotatedPermutes | app.py:1957-1961 | k rotations are a permutation of the slots |
| RoundRobin.RotatedSlot | app.py:1957-1961 | within the first n-1 turns, position p >= 1 holds the slot that started w places earlier, counted cyclically over positions 1..n-1 |
| RoundRobin.RotationPeriod | app.py:1957-1961 | n-1 turns bring the rotation back to where it started |
| RoundRobin.ScheduleRepeatsEveryCycle | app.py:1954-1963 | week w + n-1 has exactly the pairs of week w, where n is the padded roster size |
| RoundRobin.RotatedStep | app.py:1954-1963 | rotating k+1 times is one more rotation after k |
| RoundRobin.Flatten | app.py:1973-1979 | the slots of a list of pairs, two per pair |
| RoundRobin.FlattenCons | app.py:1973-1979 | the slots of a list are the first pair's slots plus the rest's |
| RoundRobin.SegmentSplit | app.py:1973-1979 | the unpaired middle of the rotation loses its two outermost slots at each step |
| RoundRobin.CapturePairs | app.py:1973-1979 | no contract of its own; CaptureFromCovers and CapturedPairAt state which slots each captured pair joins, and that every slot is captured |
| RoundRobin.CaptureStep | app.py:1973-1979 | position i is paired with position -(i+1) unless both are byes |
| RoundRobin.CaptureFromCovers | app.py:1973-1979 | the captured pairs hold exactly the slots of the rotation |
| RoundRobin.CaptureFromPlayerFirst | app.py:1973-1979 | every captured pair has a player in front |
| RoundRobin.WeekPairs | app.py:1957-1963 | no contract of its own; WeekPairsCaptured, WeekIsPerfectPairing and NoPairRepeatsWithinCycle state what a week's pairs are |
| RoundRobin.WeekPairsCaptured | app.py:1973-1989 | cleaning a week's captured pairs removes nothing, and every pair has a player in front |
| RoundRobin.WeekPairsCover | app.py:1954-1989 | each week's pairs hold exactly the padded roster |
| RoundRobin.CapturedPairAt | app.py:1973-1979 | every captured pair is the normalized pair of some position i and its mirror n-1-i |
| RoundRobin.CycleSlotsDiffer | app.py:1957-1985 | in two different weeks of the first n-1, the slots at a position and its mirror are never the same two slots |
| RoundRobin.DistinctPlacesDistinctPairs | app.py:1966-1970 | with distinct ids, two different pairs of places of the padded roster hold different pairs of slots, in either order |
| RoundRobin.WeekPairPlaces | app.py:1954-1989 | each pair of a week in the first cycle holds the slots that the rotation brings to a position and its mirror |
| RoundRobin.NoPairRepeatsWithinCycle | app.py:1954-1989 | with distinct ids, two different weeks among the first n-1 never share a pair in either order: no two players meet twice and no player has two byes |
| RoundRobin.NoneAtMostOnce | app.py:1966-1970 | the padded roster holds a bye exactly when the roster is odd |
| RoundRobin.ByeCountIsNoneCount | app.py:1973-1979 | the number of byes in a week is the number of None slots in its pairs |
| RoundRobin.PlayerCountInRoster | app.py:1966-1970 | each rostered player occurs once in the padded roster, others never |
| RoundRobin.WeekIsPerfectPairing | app.py:1954-1989 | each week every rostered player is in exactly one pair, no one else is, and an odd roster has exactly one bye |
| RoundRobin.CaptureRounds | app.py:1957-1961 | the loop captures week w's pairs from the rotation turned w times |
| RoundRobin.BuildRoundRobin | app.py:1954-1963 | exactly limit-weeks weeks, week w being the cleaned pairs of rotation w |
| RoundRobin.ScheduleIsPerfectPairing | app.py:1954-1989 | in every produced week each player plays once, an odd roster has one bye, and no empty pair occurs |
| Seeding.LargestPowerOfTwo | app.py:2053 | the bracket target is the power of two t with t <= n < 2t |
| Seeding.LargestPowerOfPowerOfTwo | app.py:2043-2053 | for a power of two the target is n itself |
| Seeding.PlayInsAscending | app.py:430-457 | the number of play-ins is the shorter of the two seed ranges that are zipped |
| Seeding.Reverse | app.py:455 | the reversed list, position by position |
| Seeding.PlayInMetadata | app.py:430-457 | no play-ins without excess players; play-ins sorted by strictly descending target seed; the same games as the ascending zip |
| Seeding.ReverseMultiset | app.py:455 | reversing keeps the same elements |
| Seeding.RoundOneSlots | app.py:2091-2117 | target/2 round-1 slots |
| Seeding.FirstRoundPairs | app.py:2123-2146 | n/2 first-round pairs |
| Seeding.BracketPlan | app.py:2017-2120 | no playoffs exactly below 2 players; a direct round 1 exactly for a power of two |
| Seeding.DirectPairsSeeds | app.py:2123-2146 | match k pairs seed k against seed n+1-k |
| Seeding.PlanCounts | app.py:2053-2057 | the target is a power of two strictly between n/2 and n; byes + 2 play-ins = n; there is at least one bye; play-ins = n - target; target/2 round-1 slots |
| Seeding.PlayInSeat | app.py:2090-2117 | the seed a play-in targets has an open seat in round-1 slot k, numbered k: the first seat when k is the seed, the second when k is target+1-seed |
| Seeding.PlayInPairing | app.py:430-457 | play-in i (from the best) pairs seed byes+1+i against seed n-i and targets the better seed |
| Seeding.PlayInTargets | app.py:430-457 | the sorted play-ins target seeds target, target-1, ... in that order |
| Seeding.EmptySlotsArePlayInTargets | app.py:2090-2117 | slot k pairs seeds k and target+1-k; a seat is empty exactly when some play-in targets its seed, and a filled seat holds that seed's player |
| Seeding.EverySeedPlaced | app.py:2017-2120 | every seed either sits in a round-1 slot (top byes seeds) or plays in exactly the play-in targeting its slot |
| Seeding.OnePastPowerOfTwoHasOnePlayIn | app.py:2043-2057 | a field one past a power of two gets a single play-in |
| Seeding.NoPowerOfTwoBetween | app.py:2043 | no power of two lies strictly between t and 2t |
| Seeding.LargestPowerOfTwoUnique | app.py:2053 | the target is the only power of two t with t <= n < 2t |
| Seeding.HalfByesLeaveOpenSeconds | app.py:2090-2117 | when byes are half the target, every round-1 slot has its first seat filled and its second open |
| Advancement.RoundMatches | app.py:2300-2304 | the rows of one playoff round, taken from the table |
| Advancement.RoundExistsIffMatches | app.py:2325-2332 | a round exists exactly when it has rows |
| Advancement.RoundMatchesAppend | app.py:2300-2304 | selecting a round distributes over appended rows |
| Advancement.RoundIsComplete | app.py:2307-2313 | no contract of its own; UnreportedCount states that a round is complete exactly when no two-player row is unreported |
| Advancement.UnreportedCount | app.py:1555-1558 | the count of unreported non-bye rows is 0 exactly when the round is complete |
| Advancement.CollectWinners | app.py:2316-2322 | at most one winner per row, and one per row exactly when every row has a winner |
| Advancement.WinnersWonARow | app.py:2316-2322 | every collected winner won some row of the round |
| Advancement.WinnerCollected | app.py:2316-2322 | the winner of every row of the round is collected |
| Advancement.InsertRound | app.py:2293-2297 | inserting a round number keeps the list increasing and adds exactly that number |
| Advancement.RoundNumbers | app.py:2293-2297 | the distinct playoff round numbers, in increasing order |
| Advancement.RoundNumbersListRounds | app.py:2293-2297 | a number is listed exactly when that round exists |
| Advancement.CreateNextRound | app.py:2335-2373 | no contract of its own; NextRoundSeatsWinners, NextRoundRow, CreateNextRoundKeepsRounds and CreateNextRoundWellFormed state the rows it appends and what it keeps |
| Advancement.NextRoundMatches | app.py:2335-2373 | ceil(w/2) rows for w winners |
| Advancement.SeatsOfNextRoundPrefix | app.py:2335-2373 | the first k new rows seat the first 2k winners in order |
| Advancement.NextRoundSeatsWinners | app.py:2335-2373 | the new rows seat the winners in order, in the new round, numbered 1.., with consecutive ids; only an odd trailing winner gets a bye, pre-reported 0-0 and won by that winner |
| Advancement.NextRoundRow | app.py:2335-2373 | row j of a new round is numbered j+1 in that round, is a bye exactly for an odd last winner, and a bye is reported 0-0 and won by its only player |
| Advancement.AutoResolveByes | app.py:2149-2162 | no reported bye is left without a score; only the scores change; no winner changes |
| Advancement.AutoResolveByesScores | app.py:2149-2162 | exactly the reported byes missing a score get 0-0 scores; every other row is unchanged |
| Advancement.SeedToWinner | app.py:2192-2200 | each target seed maps to the winner of a play-in carrying that match number |
| Advancement.SeedToWinnerDistinct | app.py:2192-2200 | when match numbers are unique, a play-in's number maps to that play-in's winner |
| Advancement.SeedToWinnerEmpty | app.py:2192-2202 | the map is empty exactly when no play-in has both a winner and a match number |
| Advancement.FillBySeed | app.py:2236-2280 | the same rows, where only empty seats are filled |
| Advancement.FillBySeedChanges | app.py:2236-2280 | the fill changes the table exactly when some row has an empty seat whose seed has a winner |
| Advancement.FillBySeedUsesSeed | app.py:2252-2275 | a filled first seat of slot m gets the winner for seed m, a filled second seat the winner for seed size+1-m |
| Advancement.FillBySeedIdempotent | app.py:2252-2280 | filling again with no new results changes nothing |
| Advancement.FillOneOpen | app.py:1661-1681 | a row takes the next unused winners into its empty seats only, in order |
| Advancement.FillOpen | app.py:1659-1681 | the same rows with only empty seats filled, using no more winners than given |
| Advancement.FillOpenPlacesWinnersInOrder | app.py:1659-1681 | the winners placed, read row by row, are exactly a prefix of the winners in order |
| Advancement.FillOpenUnusedUnchanged | app.py:1659-1683 | when no winner was placed the rows are unchanged |
| Advancement.AdvancePlayIns | app.py:2191-2280 | no contract of its own; FillBySeedChanges, FillBySeedUsesSeed, FillOpenPlacesWinnersInOrder and AdvancePlayInsWithoutProgressUnchanged state the seed-keyed and in-order fills and when progress is reported |
| Advancement.Step | app.py:2178-2287 | no contract of its own; StepGuarantees, StepWithoutProgressUnchanged and StepWellFormed state when a round advances and what the step keeps |
| Advancement.Pass | app.py:2175-2287 | no contract of its own; PassKeepsRounds, PassWithoutProgressUnchanged and PassWellFormed state it |
| Advancement.Advance | app.py:2165-2290 | no contract of its own; AdvanceKeepsRounds, AdvanceSettledUnchanged, AdvanceSettlesOrHitsCap, AdvanceAfterProgress, AdvanceWithoutProgress and AdvanceWellFormed state it |
| Advancement.StepWithoutProgressUnchanged | app.py:2178-2287 | a round step that reports no progress leaves the table unchanged |
| Advancement.AdvancePlayInsWithoutProgressUnchanged | app.py:2191-2280 | placing the play-in winners without filling a seat leaves the table unchanged |
| Advancement.PassWithoutProgressUnchanged | app.py:2175-2290 | a pass with no progress leaves the table unchanged |
| Advancement.AdvanceSettledUnchanged | app.py:2165-2290 | advancing a settled table changes nothing |
| Advancement.AdvanceSettlesOrHitsCap | app.py:2170-2173 | the recursion either reaches a settled table or stops after the remaining of the 10 passes |
| Advancement.AdvanceAfterProgress | app.py:2165-2173 | after a pass that made progress, advancing continues from that pass's table one level deeper |
| Advancement.AdvanceWithoutProgress | app.py:2165-2173 | a pass without progress ends the advance on the unchanged, settled table |
| Advancement.SameRoundsSameCounts | app.py:2300-2304 | tables with the same round membership have the same number of rows per round |
| Advancement.SameRoundsKeepRounds | app.py:2252-2275 | updating seats in place never moves a row to another round |
| Advancement.NextRoundMatchesInRound | app.py:2335-2373 | the new rows all belong to the new round |
| Advancement.CreateNextRoundKeepsRounds | app.py:2282-2287 | creating a missing round adds rows to that round only and keeps every existing round |
| Advancement.KeepsRoundsTransitive | app.py:2165-2290 | keeping the rounds composes over passes |
| Advancement.StepGuarantees | app.py:2178-2287 | a step keeps every round; it advances only a complete round; a main round creates the next only with more than one winner and when that round does not exist, and then seats the collected winners; the corrected step also needs every earlier round complete |
| Advancement.PassKeepsRounds | app.py:2175-2290 | a whole pass keeps every round |
| Advancement.AdvanceKeepsRounds | app.py:2165-2290 | automatic advancement never deletes or duplicates a round |
| Advancement.SameIdsWellFormed | app.py:122-123 | updating rows in place without changing their ids keeps the ids increasing and below the next free id |
| Advancement.AppendWellFormed | app.py:122-123 | appending rows numbered upward from the next free id keeps the table well formed and moves the next id past them |
| Advancement.CreateNextRoundWellFormed | app.py:2335-2373 | inserting a next round keeps the table well formed |
| Advancement.FillOpenWellFormed | app.py:1659-1681 | filling open seats keeps the table well formed |
| Advancement.FillBySeedWellFormed | app.py:2236-2280 | filling by seed keeps the table well formed |
| Advancement.StepWellFormed | app.py:2178-2287 | one round step keeps the table well formed |
| Advancement.PassWellFormed | app.py:2175-2290 | a whole pass keeps the table well formed |
| Advancement.AdvanceWellFormed | app.py:2165-2290 | automatic advancement keeps the table well formed |
| Advancement.AsWrittenAdvancesPastUnplayedPlayIns | app.py:2178-2190 | as written, with an unplayed play-in and round-1 slots still waiting for their second player, round 2 is created |
| Advancement.CorrectedWaitsForPlayIns | app.py:2178-2190 | the corrected step does nothing to main rounds while a play-in is unplayed |
| Advancement.ManualAdvance | app.py:1540-1696 | a champion is crowned only from a complete round with a single winner (in the play-in round only as written), ending the playoffs; an advance moves to the next round and only from a complete round; advancing a main round into an existing round only fills empty seats; every refusal changes nothing |
| Advancement.ManualAdvanceDecides | app.py:1540-1696 | past the play-ins a complete round with a single winner always crowns it; one with two or more winners always advances, creating the next round from the winners or filling the empty seats of the existing one in order; a complete play-in round that crowns nobody advances to round 1 exactly when round 1 exists and a seed fill applies, and then the table is the seed-filled one |
| Advancement.PlayInRoundAdvances | app.py:1587-1648 | with the corrected crowning rule, a complete play-in round whose seed fill applies moves to round 1 with the seed-filled table |
| Advancement.AsWrittenCrownsPlayInWinner | app.py:1565-1587 | as written, a complete play-in round with one winner ends the playoffs with that winner as champion |
| Advancement.ManualAdvanceWellFormed | app.py:1540-1696 | the manual advance keeps row ids increasing and below the next free id |
| Advancement.ManualAdvanceKeepsRounds | app.py:1540-1696 | the manual advance, in the order as written and in the corrected order, never deletes or duplicates a round |
| Advancement.LastSingleRound | app.py:2411-2416 | the round found has exactly one row; when none is found, no listed round has one |
| Advancement.LastSingleRoundIsHighest | app.py:2400-2416 | the finals round is the highest round with exactly one row |
| Advancement.PlayoffChampion | app.py:2398-2453 | no contract of its own; ChampionWonTheFinal states that the champion is the winner of the reported two-player finals row |
| Advancement.ChampionWonTheFinal | app.py:2398-2453 | there is no finals round exactly when no round has one row; when the finals row (the highest one-row round) is reported with two players, the champion is exactly its winner; an unreported finals row or one without player 2 gives no champion |
| Bracket.PlayoffRowsRemoved | app.py:2030 | exactly the non-playoff rows are kept |
| Bracket.Seeds | app.py:2039 | one seed per ranked row, in rank order |
| Bracket.PairRows | app.py:2123-2146 | one unreported row per pair, in the given round |
| Bracket.PlayInRows | app.py:2064-2088 | one unreported round-0 row per play-in |
| Bracket.RoundOneRows | app.py:2090-2117 | one unreported round-1 row per slot |
| Bracket.RoundMatchesAllInRound | app.py:2300-2304 | rows that all belong to a round are that round |
| Bracket.RoundMatchesNoneInRound | app.py:2300-2304 | rows outside a round contribute nothing to it |
| Bracket.NoRoundsRemain | app.py:2030 | after deleting playoff rows no round has rows |
| Bracket.RoundsAfterAppend | app.py:2030-2049 | after deleting and appending one round's rows, that round is exactly those rows |
| Bracket.RoundsAfterPlayIns | app.py:2030-2120 | after seeding with play-ins, round 0 is the play-in rows, round 1 the slot rows, and no other round exists |
| Bracket.PlanTableRounds | app.py:2030-2120 | each plan leaves exactly its rounds and the matching current round (-1, 1 or 0) |
| Bracket.SeededRounds | app.py:2017-2120 | seeding leaves no rounds below 2 players, round 1 of seed pairs for a power of two, and otherwise the play-ins in round 0 and the slots in round 1 |
| Bracket.PlayoffRowsRemovedWellFormed | app.py:2030 | deleting the playoff rows keeps the table well formed |
| Bracket.PlanTableWellFormed | app.py:2030-2120 | laying a plan's rows onto a well-formed table keeps it well formed |
| Bracket.ReportedRounds | app.py:2064-2120 | once results are reported on a seeded table, round 0 is still the play-in rows and round 1 the slot rows |
| Bracket.PlayInWinnerKeyed | app.py:2192-2200 | a play-in's winner is what the seed-to-winner map gives for its target seed |
| Bracket.PlayInSeatRow | app.py:2090-2117 | the round-1 row holding a play-in's target seat exists in the reported table, with that seat open |
| Bracket.FillBySeedSeats | app.py:2252-2275 | filling by seed puts a winner into the open seat of its seed |
| Bracket.SeededPlayInSeat | app.py:2064-2200 | on a reported seeded table, a play-in's winner is keyed by its target seed and that seed's round-1 seat is open |
| Bracket.PlayInFillSeats | app.py:2236-2280 | with a play-in winner keyed by its seed and that seed's seat open, the seed fill applies and seats the winner there |
| Bracket.PlayInSeatAdvances | app.py:1587-1648 | the corrected manual advance of such a round moves to round 1 with the winner in its seed's seat |
| Bracket.CorrectedAdvancesPlayInWinner | app.py:1587-1648 | on a seeded table with play-ins whose round 0 is complete, the corrected manual advance moves to round 1 and seats every play-in winner in its target seed's seat |
| Bracket.FillOpenStep | app.py:1661-1681 | filling one more row extends the filled prefix by that row |
| Bracket.FillRow | app.py:1661-1681 | the method fills one row exactly as the specification does |
| Bracket.RoundComplete | app.py:2307-2313 | the loop decides exactly round completion |
| Bracket.CollectWinnersSnoc | app.py:2316-2322 | one more row adds its winner, if any, at the end |
| Bracket.Winners | app.py:2316-2322 | the loop collects exactly the winners in row order |
| Bracket.SeedWinners | app.py:2192-2200 | the loop builds exactly the seed-to-winner map |
| Bracket.League.constructor | app.py:263-268 | the league starts from the given table, next id and current round |
| Bracket.League.ResolveByes | app.py:2149-2162 | the rows become the bye-resolved rows; nothing else changes |
| Bracket.League.InsertNextRound | app.py:2335-2373 | the table becomes the next-round specification; the current round is unchanged |
| Bracket.League.FillSeededSlots | app.py:2236-2280 | the rows become the seed-filled rows, and the flag says whether any seat was filled |
| Bracket.League.FillOpenSlots | app.py:1659-1683 | the rows become the in-order fill, and the count of winners used is returned |
| Bracket.League.AdvancePlayInRound | app.py:2191-2280 | the table and progress flag are those of the play-in specification |
| Bracket.League.AdvanceRound | app.py:2178-2287 | one round step in place equals the step specification under the given ordering rule, and keeps the table well formed |
| Bracket.League.AdvancePlayoffWinners | app.py:2165-2290 | the passes in place equal the capped advancement specification under the given ordering rule, and keep the table well formed |
| Bracket.League.AdminAdvancePlayoffRound | app.py:1540-1696 | the table, current round and outcome equal the manual advance under the given crowning rule, and the table stays well formed |
| Bracket.League.CreateFirstRoundMatches | app.py:2123-2146 | appends one row per seed pair and advances the next id by n/2 |
| Bracket.League.InsertPlayIns | app.py:2064-2088 | appends one round-0 row per play-in |
| Bracket.League.InsertRoundOneSlots | app.py:2090-2117 | appends target/2 round-1 rows from the slots |
| Bracket.League.CreatePlayoffBracket | app.py:2017-2120 | the table and current round equal the seeding specification for the non-playoff standings |
| Bracket.League.InsertBracket | app.py:2030-2120 | the table and current round equal the plan laid onto the table without playoff rows |
| Presentation.BuildMatchView | app.py:327-359 | the view flags a bye and a forfeit as the row does; "Bye" summary exactly for byes; no summary exactly for an open match; a reportable match is neither a bye nor forfeited; totals are the game sums when games exist |
| Presentation.CanReport | app.py:339-358 | no contract of its own; ReportableMatchIsPlayable and ReportablePlayoffRowIsInCurrentRound state what a reportable match is |
| Presentation.ReportableMatchIsPlayable | app.py:339-359 | a reportable match has two players and no forfeit; a playoff one needs an active round, a weekly one the current week |
| Presentation.RowOfRoundIsListed | app.py:2300-2304 | a row of a round is among that round's rows |
| Presentation.ReportablePlayoffRowIsInCurrentRound | app.py:339-347 | a playoff row is reportable exactly when it is in the active round, has two players and is not forfeited |
| Presentation.LabelForRound | app.py:372-427 | every label is at least six characters |
| Presentation.PlayInAndFinalsLabels | app.py:391-399 | "Play-in Round" exactly for round 0; past it, "Finals" exactly for a one-match round |
| Presentation.NamedCountsLabelByCount | app.py:395-409 | a named match count decides the label alone, and different named counts give different labels |
| Presentation.NumberedLabelNamesRound | app.py:410-427 | an unnamed round past the first is labelled "Round n", and n reads back from the label |
| Presentation.StaticNamesFollowThirtyTwoPlayerBracket | app.py:416-426 | without a count, rounds 2-5 get the names a bracket starting from 32 players gives by count |
| Presentation.PlayInOrderIsPreorder | app.py:505-511 | the play-in order (descending match number, then id) is a total preorder |
| Presentation.SlotOrderIsPreorder | app.py:513 | the main-round order (match number, else id) is a total preorder |
| Presentation.RoundOrderIsPreorder | app.py:562-564 | ordering by round number is a total preorder |
| Presentation.OrderedMatches | app.py:505-513 | a permutation of the round's matches, round 0 by descending match number with ties by ascending id, other rounds by ascending match number (else id) |
| Presentation.OrderedMatchesStable | app.py:513 | past round 0, matches that share a sort key keep the order they came in |
| Presentation.Numbered | app.py:515-516 | display indices become 1..k in order |
| Presentation.Normalized | app.py:501-519 | the round keeps its number and label, and its match count equals its number of matches |
| Presentation.Unnumbered | app.py:515-516 | the matches with their display index cleared |
| Presentation.UnnumberedSplit | app.py:515-516 | clearing display indices distributes over concatenation |
| Presentation.UnnumberedPermutation | app.py:505-516 | permuted matches stay permuted once display indices are cleared |
| Presentation.NormalizedRenumbersSameRows | app.py:501-519 | normalizing only reorders the round's rows and numbers them 1..k |
| Presentation.NormalizedMatchFromRound | app.py:501-519 | every displayed match is one of the round's matches with its display index set |
| Presentation.NextDisplayIndex | app.py:522-542 | a link exists only toward an existing next round and stays within its match count; past the play-ins it is never 0 |
| Presentation.PlayInConnector | app.py:526-537 | a play-in for seed s links to slot t exactly when t is in 1..c and t = s or 2c+1-t = s |
| Presentation.ConnectorPairsNeighbours | app.py:539-542 | past the play-ins slot t receives exactly the matches displayed at 2t-1 and 2t, when the next round has slot t |
| Presentation.PlayInWinnerLinkedToOpenSeat | app.py:526-537 | each play-in of a seeded field links to the round-1 slot whose open seat is its target seed |
| Presentation.LinkedRound | app.py:545-554 | linking keeps the round's number, label, count and number of matches |
| Presentation.LinkedRounds | app.py:545-554 | linking keeps the number of rounds |
| Presentation.NormalizedRounds | app.py:566-567 | normalizing keeps the number of rounds |
| Presentation.RoundsInOrder | app.py:562-564 | the rounds, permuted into ascending round number |
| Presentation.RoundsInOrderStable | app.py:562-564 | rounds that share a round number keep the order they came in |
| Presentation.Finalized | app.py:557-571 | the finalized layout has as many rounds as given, in ascending round number |
| Presentation.FinalizedLinksFollowingRound | app.py:557-571 | each match is displayed at its position, every round's count is its number of matches, a match points to the following round, and the last round's matches point nowhere |
| Presentation.NormalizeRoundMatches | app.py:501-519 | the in-order renumbering loop computes the normalized round |
| Presentation.LinkRound | app.py:548-554 | the loop links every match of a round as the specification does |
| Presentation.LinkRounds | app.py:545-554 | the loop links every round to its successor |
| Presentation.FinalizeBracketRounds | app.py:557-571 | sort, normalize and link compute the finalized layout |
| Presentation.PairMatches | app.py:596-619 | one preview match per seed pair |
| Presentation.PlayInMatches | app.py:679-703 | one preview match per play-in, carrying its target seed as match number |
| Presentation.RoundOneMatches | app.py:714-758 | one preview match per round-1 slot |
| Presentation.PlaceholderRound | app.py:771-801 | a placeholder round has the requested number of empty matches |
| Presentation.PlaceholdersHalve | app.py:768-804 | placeholder rounds are numbered consecutively, halve at each step, start at half the teams and end in a one-match "Finals" |
| Presentation.MainRoundsShape | app.py:760-804 | round 1 of a power-of-two size and its placeholders are consecutive, halving and end in the final |
| Presentation.PlayInsBeforeMainRounds | app.py:705-712 | the play-in round in front keeps that shape |
| Presentation.DirectShape | app.py:592-665 | a power-of-two field previews as round 1 then halving rounds to the final |
| Presentation.CutShape | app.py:667-804 | a cut field previews as play-ins, then target/2 round-1 slots, then halving rounds to the final |
| Presentation.Preview | app.py:574-806 | no contract of its own; PreviewShape, PreviewEmptyIffTooFewPlayers, PreviewKeepsRoundOrder and PreviewLinksEveryMatch state it |
| Presentation.PreviewShape | app.py:574-806 | the preview starts at round 1 for a power-of-two field and at round 0 otherwise, with consecutive, halving rounds ending in a one-match final; the play-ins precede the round-1 slots |
| Presentation.PreviewKeepsRoundOrder | app.py:562-571 | the preview's rounds are already in order, so finalizing only normalizes and links them |
| Presentation.MainMatchLinked | app.py:539-542 | in a halving pair of rounds every main match is linked to a slot of the next round |
| Presentation.SeededPlayInLinked | app.py:526-537 | play-ins whose target seeds lie in 1..2c are all linked to a slot of the next round |
| Presentation.PlayInMatchLinked | app.py:526-537 | every play-in of a seeded field is linked to a round-1 slot |
| Presentation.LinkedPreviewMatch | app.py:545-554 | every preview match before the last round links to a slot of the round one higher; last-round matches point nowhere |
| Presentation.LinkedPreviewConnects | app.py:545-571 | the linked preview connects every match |
| Presentation.PreviewEmptyIffTooFewPlayers | app.py:579-581 | the preview is empty exactly when fewer than two players are ranked |
| Presentation.PreviewLinksEveryMatch | app.py:574-806 | in every preview each match before the final feeds a slot of the next round and the final round is a single, unlinked match |
| Presentation.BuildDirectOpening | app.py:592-627 | the loop builds the direct opening round |
| Presentation.BuildCutOpening | app.py:667-766 | the loops build the play-in round and the round-1 slots |
| Presentation.BuildPlaceholderRound | app.py:772-801 | the loop builds one placeholder round |
| Presentation.AppendPlaceholderRounds | app.py:768-804 | the while loop appends exactly the halving placeholder rounds |
| Presentation.BuildPlayoffPreview | app.py:574-806 | the method computes exactly the finalized preview |
| Sorting.SortBy | app.py:1912-1921 | a permutation of the input, sorted by the given total preorder |
| Sorting.InsertEquivalents | app.py:1912-1921 | insertion puts the new element ahead of every element that compares equal to it |
| Sorting.SortByStable | app.py:1912-1921 | the elements that compare equal to any given one keep their input order (stability) |
| Sorting.SortBySortedUnchanged | app.py:562-564 | sorting a list already in order returns it unchanged |

## Left out

- HTTP routes, templates, flash messages, redirects and admin authentication. Only the
  decision logic of the manual advance is kept, as an outcome value.
- SQL and connection handling, schema and settings storage. The matches table is a sequence
  of rows with increasing ids, so "ORDER BY id" is sequence order. The current playoff round is
  a field of `League`.
- Timestamps (`created_at`), and the player-name lookups. These are the champion's name query
  and the names and ranks printed into preview match labels.
- Python's `int()` parsing of score fields. Each field is modelled as already parsed: blank, an
  integer, or not an integer.
- The `win_percentage` float shown on the player profile, and `generate_weekly_schedule`'s
  inserts. The pairs it inserts are exactly `BuildRoundRobin`'s weeks.
- Preview match ids are strings such as `preview-r1-0`. They are modelled as integer positions.
  They only break ties between equal keys, and no two preview matches of a round share a key.
- `setdefault("match_number", idx)` in the normalization is not modelled. Every row reaching it
  carries a `match_number` key, so the setdefault never fires.
- The bit tricks `n & (n - 1) == 0` and `1 << (bit_length - 1)` become a recursive
  `IsPowerOfTwo` and `LargestPowerOfTwo`. Their meaning is proved: t is the power of two with
  t <= n < 2t.
- Dictionaries mutated in place by the presentation code are modelled as returned values.
  Methods rebuild each round value. Aliasing between those dictionaries is not captured.
- Presentation.LabelForRound: its own contract only bounds the label's length. What each label
  means is stated by the label lemmas beside it.
- Advancement.ManualAdvance: the administrator's advance reports a failure outcome without the
  message text. Rolling back a partial play-in fill is modelled by returning the unchanged table.
- RoundRobin.BuildRoundRobin: its contract does not promise new opponents every week of the
  season, because the code does not give them. The season is always eight weeks long
  (`MAX_WEEKS`, app.py:35, used at app.py:1935), and the rotation repeats after n-1 weeks, where n
  is the padded roster size. A roster of at most eight players therefore meets the same opponents
  again from week n-1 on. `NoPairRepeatsWithinCycle` proves that no pair repeats before then, and
  `ScheduleRepeatsEveryCycle` proves the repeat.
- The automatic advance's only call site (`app.py:180-182`) is commented out. It is modelled anyway,
  because it is part of the bracket engine.

## Findings

| source | as written | input that shows it | evidently intended | confidence | as-written member | corrected member |
|---|---|---|---|---|---|---|
| app.py:1565-1587 | The single-winner champion check runs before the play-in branch. | 5 ranked players: one play-in (seed 4 v seed 5). Once it is reported, advancing round 0 ends the playoffs with the play-in winner as champion. | Play-in winners fill round 1, and play goes on. | not executed | Advancement.AsWrittenCrownsPlayInWinner | Bracket.CorrectedAdvancesPlayInWinner |
| app.py:2178-2190, app.py:2307-2313 | A round-1 row whose second seat still waits for a play-in winner counts as a finished bye, so round 1 counts as complete. | 6 ranked players: round 1 is (seed 1, empty) and (seed 2, empty). Before any play-in is reported, the pass creates round 2, seed 1 v seed 2. | A round advances only once every earlier round is complete. | not executed | Advancement.AsWrittenAdvancesPastUnplayedPlayIns | Advancement.CorrectedWaitsForPlayIns |
