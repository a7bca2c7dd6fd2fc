# FantasyForecast start/sit comparison, modelled in Dafny

FantasyForecast is a small Express server that helps a fantasy-football player decide whom
to start. This project models the decision logic of its `/api/compare` endpoint and the
name search of its `/api/player/:name` endpoint (`server.js`). The fetched data and the
clock readings are plain inputs.

- **Validation** (`Compare`). The `players` query parameter is split on every comma and
  each piece is trimmed. A missing or empty parameter is rejected with a 400 error, and so
  is a list of fewer than two names. Both checks happen before the roster is consulted.
- **Name resolution** (`Players`). Each name goes to the first roster record, in iteration
  order, whose lower-cased full name contains the lower-cased query and which has a team
  and is active. If any name resolves to nothing, the reply is the 400 error
  "One or more players not found". The player search endpoint uses the same name test
  without the team and active conditions.
- **Evaluation window** (`Window`). A day count since the season start and a weekday give
  the current week (at most 18), the last completed week (at least 1) and a trailing window
  of one to three weeks. The window's weekly statistics are then requested one by one.
- **Scoring** (`Scoring`). A player's weekly PPR points are kept when strictly positive.
  Their mean is the recent average. The score is `round(5·average + bonus)`, where the
  bonus of 10 applies when all three weeks have points. An inactive player scores 0. The
  data status is "Limited data - stats may be updating" below three weeks and
  "Complete data" otherwise.
- **Ranking** (`Ranking`, `Compare`). The scored players are stably sorted by descending
  score. The first entry is the recommendation, and the reason quotes its average
  rounded to one decimal.

`Compare.HandleCompare` runs these steps imperatively: the resolution loop, the loop over
the window's weeks and an in-place insertion sort on an array. It is proved equal to the
reference function `Compare.CompareSpec`. The lemmas about `CompareSpec` state when each
error is returned and what a successful comparison contains.

The score is computed as in `server.js`: a weight of 5 on the recent average, a
consistency bonus of 10 and no matchup or defense-strength term. The last completed week
comes from the date, whose parts are inputs.

Fetch outcomes are inputs. The roster is `Option<seq<Player>>`, where `None` is a failed
request. The weekly statistics are a `map<int, WeekStats>` from week number to that week's
statistics, and a week missing from the map is a failed request. Either failure gives the
500 reply "Failed to compare players". So does a `players` parameter that the query
parser turned into an array or an object (`NotAString`), because `split` then throws.

## Model

| member | source | states |
|---|---|---|
| Text.Lower | server.js:87 | lower-casing keeps the length and leaves no upper-case ASCII letter |
| Text.Contains | server.js:87 | `includes`: a hit needs the query to be no longer than the name, and a query that starts the name is a hit; ContainsIffOccurs characterises it completely |
| Text.ContainsIffOccurs | server.js:87 | the `includes` search answers true exactly when the query occurs at some offset of the name |
| Text.EmptyPatternAlwaysContained | server.js:87 | the empty query is contained in every name |
| Text.TrimStart | server.js:70 | the result is a suffix; only white space was dropped; it does not start with white space |
| Text.TrimEnd | server.js:70 | the result is a prefix; only white space was dropped; it does not end with white space |
| Text.Trim | server.js:70 | the trimmed name is no longer than the piece and neither starts nor ends with white space |
| Text.TrimIsInfix | server.js:70 | the trimmed name is an infix of the piece with only white space before and after it |
| Text.TrimIdempotent | server.js:70 | trimming a trimmed name changes nothing |
| Text.Split | server.js:70 | splitting on commas gives at least one piece, and no piece holds a comma |
| Text.SplitCount | server.js:70 | there is one more piece than there are commas, so every comma splits |
| Text.NoCommaIffZeroCount | server.js:70-72 | a parameter has no comma exactly when its comma count is 0 |
| Text.JoinSplit | server.js:70 | joining the pieces with commas restores the parameter |
| Text.SplitJoin | server.js:70 | comma-free pieces joined with commas split back into the same pieces |
| Text.NatToString | server.js:198 | the decimal rendering is non-empty, all digits, with no leading zero |
| Text.ParseNatToString | server.js:198 | reading the rendered digits back gives the number |
| Text.FormatTenths | server.js:198 | the rendering of a number of tenths starts with '-' exactly for negatives; a non-negative one is its whole part in decimal digits, then '.' and the tenths digit only when that digit is not 0, as `${recentAvg}` prints a number with at most one decimal |
| Text.ParseTenthsFormatTenths | server.js:198 | the rendering of a number of tenths reads back to that number |
| Players.NameMatches | server.js:44-46 | the name test, also the first two conditions of the `find` at lines 86-87: a match needs a full name, and the empty query matches every record that has one; EmptyQueryMatchesAnyName gives the converse and ContainsIffOccurs the test itself |
| Players.Eligible | server.js:85-90 | an eligible record matches the name, has a team and is active |
| Players.FirstEligible | server.js:85-90 | the index found is eligible (name matches, team set, active) and no earlier record is; None means no record is eligible |
| Players.EmptyQueryMatchesAnyName | server.js:85-87 | the empty name left by a trailing comma matches every record whose full name is set |
| Players.MatchedPlayers | server.js:81-94 | the loop collects at most one record per name |
| Players.MatchedPlayersCount | server.js:82-99 | one record per name was collected exactly when every name resolves |
| Players.MatchedPlayersAt | server.js:82-94 | when every name resolves, the k-th record collected is the first eligible match of the k-th name |
| Players.MatchedPlayersEligible | server.js:85-99 | when every name resolves, each record collected is eligible for its name |
| Players.MatchedPlayersComplete | server.js:82-99 | one record per name was collected exactly when every name resolves, and then the k-th is the first eligible match of the k-th name |
| Players.ResolvePlayers | server.js:81-94 | the loop's result is the collected first matches; it covers every name exactly when all resolve, and each is eligible for its name |
| Players.ResolvedIsAmongSearchResults | server.js:85-90 | a record the compare endpoint resolves to is listed by the search endpoint for the same query |
| Players.SearchByName | server.js:44-46 | the search keeps only records whose name matches and never more than the roster |
| Players.SearchByNameMembers | server.js:44-46 | a record is in the search result exactly when it is in the roster and its name matches |
| Players.SearchByNameAppend | server.js:44-46 | the search keeps roster order: searching two stretches of the roster concatenates their results |
| Players.SearchByNameSingle | server.js:44-46 | a single record is listed exactly when its name matches |
| Players.LookupPlayer | server.js:37-56 | a failed roster fetch gives 500; a fetched roster gives either 404 "Player not found" or a 200 reply whose body is the whole search result, non-empty and all matching |
| Players.LookupNotFoundIff | server.js:48-52 | the 404 "Player not found" is returned exactly when no record's name matches |
| Window.CurrentWeek | server.js:110 | the current week is at most 18, is the 7-day block holding the day below 18, and is at least 1 from the season start on |
| Window.LastCompletedWeek | server.js:113-122 | the last completed week is at least 1 and at most the current week; from week 1 on it is the current week on Sunday and Monday, and from week 2 on it is the week before on Tuesday to Saturday; before week 2 it is 1 |
| Window.StartWeek | server.js:124-126 | the window starts at week 1 or later, no later than its end, and spans at most 3 weeks; it spans exactly 3 once the end is week 3 or later, and starts at week 1 before that |
| Window.WindowBounds | server.js:110-126 | for every day and weekday, 1 ≤ start ≤ last ≤ 18, last ≤ current when current ≥ 1, and the window holds 1 to 3 weeks |
| Window.WeeksToFetch | server.js:135-140 | the request loop visits the window's weeks, in increasing order, each once |
| Scoring.PointsIn | server.js:154-155 | a week's points are 0 when the player or the value is missing, and the `pts_ppr` value otherwise |
| Scoring.WeeklyPoints | server.js:153-156 | the kept points are all strictly positive and no more than the weeks fetched |
| Scoring.WeeklyPointsAppend | server.js:153-156 | weeks are read in order: the points of two stretches of weeks concatenate |
| Scoring.WeeklyPointsAllPlayed | server.js:153-156 | every week is kept exactly when all have positive points, and then the list is the weeks' points one for one |
| Scoring.WeeklyPointsAbsent | server.js:154-155 | a player missing from every week's statistics has no points |
| Scoring.Average | server.js:160-162 | the mean of a non-empty list times its length is the total, and the mean of the empty list is 0; AveragePointsSign gives its sign |
| Scoring.AverageBounds | server.js:160-162 | the mean of a non-empty list lies between any bounds of its elements |
| Scoring.AveragePointsSign | server.js:160-162 | the recent average is never negative, and positive exactly when some week has points |
| Scoring.Round | server.js:181 | rounding gives the integer within one half, halves going up |
| Scoring.RoundShift | server.js:181 | rounding commutes with adding a whole number |
| Scoring.RoundMonotone | server.js:181 | rounding preserves order |
| Scoring.Score | server.js:165-181 | an inactive player scores 0; an active one with a non-negative average scores at least 0 |
| Scoring.ShownAverage | server.js:182 | the shown average is a whole number of tenths within 0.05 of the exact one, which determines it |
| Scoring.DataStatus | server.js:185-187 | the status is "Complete data" exactly when 3 or more weeks have points, and "Limited data - stats may be updating" otherwise; BonusIffComplete ties it to the bonus |
| Scoring.ScorePlayer | server.js:149-188 | the entry's points are the player's kept weekly points, its games played their count (at most the weeks fetched), its shown average their mean rounded to tenths, its score and status those of that mean and count; name, position and team are copied, a missing team shown as "Free Agent"; score and shown average are non-negative |
| Scoring.ScoreAll | server.js:149-189 | one entry per resolved player, the i-th being the i-th player's entry |
| Scoring.BonusIffComplete | server.js:165-187 | over at most 3 weeks, an active player's status is "Complete data" exactly when all 3 weeks have points, and then the score is the rounded weighted average plus exactly 10 |
| Scoring.NoBonusInShortWindow | server.js:168-187 | with fewer than 3 weeks fetched, the status is always "Limited data" and no bonus is added |
| Scoring.ScoreMonotone | server.js:165-181 | with equal weeks played, a higher average never scores lower |
| Scoring.ResolvedScoreUnzeroed | server.js:172-180 | a resolved player keeps their team and is never zeroed as inactive |
| Scoring.ThreeWeekExample | server.js:149-188 | weeks of 20, 15 and 25 points give an average of 20, complete data and a score of 110 |
| Ranking.Insert | server.js:192 | inserting adds exactly one entry |
| Ranking.SortByScore | server.js:192 | the sort keeps the number of entries |
| Ranking.InsertPermutes | server.js:192 | inserting adds the new entry once and keeps all others |
| Ranking.InsertSorted | server.js:192 | inserting into a non-increasing list keeps it non-increasing |
| Ranking.InsertGroups | server.js:192 | inserting appends the entry to its own score group and leaves the other groups unchanged |
| Ranking.SortByScoreSorted | server.js:192 | the ranking is in non-increasing score order |
| Ranking.SortByScorePermutes | server.js:192 | the ranking is a permutation of the input |
| Ranking.SortByScoreStable | server.js:192 | the ranking keeps the players of each score in input order |
| Ranking.SortByScoreProperties | server.js:192 | the ranking is non-increasing, a permutation of the input, and keeps equal scores in input order |
| Ranking.SortedGroupsDetermine | server.js:192 | two non-increasing lists with the same ordered groups of equal score are equal |
| Ranking.StableSortIsUnique | server.js:192 | any sorted result that keeps each score group in input order is this ranking, so every stable sort gives it |
| Ranking.FirstIsBest | server.js:192-193 | the first entry of the ranking scores at least as much as every player |
| Ranking.HeadScoreIsMax | server.js:192-193 | of two lists with the same score groups, the non-increasing one starts with the higher score |
| Ranking.InsertAt | server.js:192 | one in-place insertion step moves the entry left past strictly lower scores only, shifting them right by one, and leaves the rest untouched |
| Ranking.InsertionStep | server.js:192 | such a placement of the next entry into the sorted prefix is the reference ranking of one more entry |
| Ranking.SortInPlace | server.js:192 | the in-place sort leaves the array holding the reference ranking of its old contents |
| Compare.ParseNames | server.js:70 | one trimmed name per comma-separated piece, one more than there are commas |
| Compare.FewerThanTwoIffNoComma | server.js:70-74 | the list has fewer than 2 names exactly when the parameter has no comma |
| Compare.TrailingCommaSplit | server.js:70 | a trailing comma after a comma-free text splits into that text and an empty piece |
| Compare.TrailingCommaNames | server.js:70 | "name," asks for two players: the trimmed name and the empty name |
| Compare.Reason | server.js:198 | the reason is "Averaged ", a number, and " fantasy points over last 3 weeks", and the number reads back as the recommended player's shown average in tenths; ReasonShowsRoundedAverage shows that no second rounding happens |
| Compare.ReasonShowsRoundedAverage | server.js:182-198 | the reason quotes the average rounded to tenths, unchanged by rendering |
| Compare.WindowStats | server.js:146-147 | the window's statistics, one per week, in week order |
| Compare.FetchWindow | server.js:135-147 | the statistics are gathered exactly when every week of the window was fetched, and are then the window's statistics |
| Compare.Rank | server.js:192 | copying into an array and sorting in place gives the reference ranking |
| Compare.CompareSpec | server.js:60-205 | every error is a 400 with one of the three validation messages or a 500 "Failed to compare players", and a success compares at least 2 entries; RejectedBeforeLookup, NotFoundIff and OkIff say which reply each input gets |
| Compare.HandleCompare | server.js:60-205 | the handler's reply equals the reference behaviour in every case, errors included |
| Compare.Evaluate | server.js:149-200 | a successful body has one entry per resolved player |
| Compare.RejectedBeforeLookup | server.js:63-74 | a missing, empty or comma-free parameter gets its 400 error whatever the roster, date and statistics |
| Compare.NotFoundIff | server.js:96-99 | with 2 or more names, "One or more players not found" is returned exactly when some name has no eligible record |
| Compare.OkIff | server.js:60-205 | a comparison is returned exactly when the parameter has a comma, the roster was fetched, every name resolves and every week was fetched |
| Compare.OkUnfold | server.js:149-200 | a comparison is the ranking of the resolved players scored over the window, with the first entry's name and reason |
| Compare.CommaOnlyNames | server.js:70 | the parameter "," names two empty queries |
| Compare.OkExample | server.js:60-205 | for any comma-free name, "name," against a roster of one player eligible for the trimmed name, with the window fetched, gives a comparison with a recommendation |
| Compare.SeasonStartWindow | server.js:106-126 | on the season's first day, a Friday, the window is week 1 alone |
| Compare.CalendarWeekGoesBack | server.js:106-122 | with the season starting on a Friday, the last completed week is 2 on Monday of day 10 and 1 on Tuesday of day 11 |
| Compare.OkRanking | server.js:192-200 | a comparison has one entry per name (at least 2); the players resolved are one per name, each the first eligible match of its name; the comparison is non-increasing; the first entry scores highest and supplies the recommendation and the reason |
| Compare.OkPermutation | server.js:192 | a comparison is a permutation of the scored players that keeps equal scores in name order |
| Compare.ResolvedAreWellScored | server.js:149-189 | resolved players scored over at most 3 weeks have a name, a score ≥ 0, at most 3 weeks, and the bonus exactly with "Complete data" |
| Compare.RankedWellScored | server.js:192 | ranking well-scored players gives only well-scored entries |
| Compare.OkEntries | server.js:149-200 | every entry of a comparison is well scored, and a recommendation is always present |
| Compare.EvaluateEntries | server.js:149-200 | the body built from players eligible for their names over at most 3 weeks has a recommendation, and every entry is well scored |

## Left out

- Express setup, CORS, JSON and static middleware, `app.listen` and response plumbing (server.js:1-23, 208-210) are framework I/O. Replies are modelled as `Reply` values, `Ok(body)` or `Error(status, message)`.
- The `/api/scores` endpoint (server.js:26-33) forwards an upstream response without any logic.
- The HTTP requests and `Promise.all` become inputs: the roster and a map from week number to that week's statistics, with a missing entry as a failure. Running the requests concurrently is not modelled.
- Date arithmetic (`new Date`, `getDay`, the millisecond division, server.js:105-113) is replaced by the inputs `daysSinceStart` and `dayOfWeek`.
- The `console.log` diagnostics (server.js:129-132) are not modelled.
- Points are exact reals. IEEE-754 rounding in the sums, the division and `Math.round` is not modelled, and `Math.round` is taken as floor(x + 1/2).
- Text.FormatTenths: renders a number as integral digits and an optional tenths digit. JavaScript's exponent notation for very large numbers and float artefacts are not modelled.
- Text.Lower: lower-cases ASCII letters only. `toLowerCase` also folds non-ASCII letters.
- `Object.values` iteration order (integer-like keys first, in ascending order) is not modelled. The roster is given as a sequence already in iteration order.
- JSON values of unexpected types are not modelled. This covers a non-string `full_name`, where `toLowerCase` would throw, and a null or malformed weekly payload. `active` is true only for the JSON value `true`, so the truthiness test at server.js:173 coincides with `active === true` for every record the model can express.
- The serialisation of the reply body is not modelled. A missing name stays `None` instead of being dropped from the JSON.
- V8 sorts with TimSort, and the model uses an insertion sort. Both are stable, and `Ranking.StableSortIsUnique` shows that every stable descending sort gives the same ranking.
