/**
 * The start/sit handler: validate the comma-separated names, resolve each against the
 * roster, pick the evaluation window, score every player, rank them and recommend the
 * first. The roster and the weekly statistics are inputs (None, or a week missing from
 * the map, stands for a failed fetch), and so are the day count and the weekday.
 */
module Compare {
  import opened Base
  import Text
  import opened Players
  import Window
  import opened Scoring
  import opened Ranking

  /** The `players` query parameter: missing, a string, or an array or object (repeated or bracketed key). */
  datatype QueryParam = Missing | Given(value: string) | NotAString

  /** The successful response body. */
  datatype Comparison = Comparison(recommendation: Option<string>, reason: string, comparison: seq<ScoredPlayer>)

  const ProvideNames := "Please provide player names"
  const AtLeastTwo := "Please provide at least 2 players to compare"
  const NotFound := "One or more players not found"
  const CompareFailed := "Failed to compare players"

  /** `split(',').map(name => name.trim())`: one trimmed name per comma-separated piece. */
  function ParseNames(s: string): (names: seq<string>)
    ensures |names| == |Text.Split(s)| == Text.CommaCount(s) + 1
    ensures forall k :: 0 <= k < |names| ==> names[k] == Text.Trim(Text.Split(s)[k])
  {
    var parts := Text.Split(s);
    Text.SplitCount(s);
    seq(|parts|, i requires 0 <= i < |parts| => Text.Trim(parts[i]))
  }

  /** A non-empty parameter names fewer than two players exactly when it has no comma. */
  lemma FewerThanTwoIffNoComma(s: string)
    ensures |ParseNames(s)| < 2 <==> ',' !in s
  {
    Text.NoCommaIffZeroCount(s);
  }

  /** A trailing comma adds an empty last name. */
  lemma {:induction false} TrailingCommaSplit(s: string)
    requires ',' !in s
    ensures Text.Split(s + ",") == [s, ""]
  {
    if s != [] {
      assert (s + ",")[1..] == s[1..] + ",";
      TrailingCommaSplit(s[1..]);
      assert [s[0]] + s[1..] == s;
    }
  }

  /**
   * One name followed by a comma asks for a comparison of two players: the trimmed name
   * and the empty name, which matches every named roster record.
   */
  lemma TrailingCommaNames(s: string)
    requires ',' !in s
    ensures ParseNames(s + ",") == [Text.Trim(s), ""]
  {
    TrailingCommaSplit(s);
  }

  const ReasonPrefix := "Averaged "
  const ReasonSuffix := " fantasy points over last " + Text.NatToString(Window.WeeksToAnalyze) + " weeks"

  /**
   * The reason line: the recommended player's shown average and the window length, always 3.
   * Between the fixed prefix and suffix stands a number that reads back as the shown
   * average's tenths.
   */
  function Reason(best: ScoredPlayer): (r: string)
    ensures |r| > |ReasonPrefix| + |ReasonSuffix|
    ensures r[..|ReasonPrefix|] == ReasonPrefix && r[|r| - |ReasonSuffix|..] == ReasonSuffix
    ensures Text.ParseTenths(r[|ReasonPrefix|..|r| - |ReasonSuffix|]) == Round(best.recentAvg * 10.0)
  {
    var shown := Text.FormatTenths(Round(best.recentAvg * 10.0));
    Text.ParseTenthsFormatTenths(Round(best.recentAvg * 10.0));
    var r := ReasonPrefix + shown + ReasonSuffix;
    assert r[|ReasonPrefix|..|r| - |ReasonSuffix|] == shown;
    r
  }

  /** The reason reports the recent average rounded to tenths, not re-rounded. */
  lemma ReasonShowsRoundedAverage(avg: real)
    ensures Round(ShownAverage(avg) * 10.0) == Round(avg * 10.0)
  {
    var t := Round(avg * 10.0);
    assert ShownAverage(avg) * 10.0 == t as real;
  }

  /** All weeks of the window from start to last have statistics. */
  predicate WindowFetched(stats: map<int, WeekStats>, start: int, last: int)
  {
    forall w :: start <= w <= last ==> w in stats
  }

  /** The fetched statistics of the window, in week order. */
  function WindowStats(stats: map<int, WeekStats>, start: int, last: int): (weekly: seq<WeekStats>)
    requires WindowFetched(stats, start, last)
    ensures |weekly| == Window.WindowLength(start, last)
    ensures forall k :: 0 <= k < |weekly| ==> weekly[k] == stats[start + k]
  {
    seq(Window.WindowLength(start, last), k requires 0 <= k < Window.WindowLength(start, last) => stats[start + k])
  }

  /** The start of the window for the given day and weekday. */
  function WindowStart(daysSinceStart: int, dayOfWeek: int): int
  {
    Window.StartWeek(WindowEnd(daysSinceStart, dayOfWeek))
  }

  /** The last completed week for the given day and weekday. */
  function WindowEnd(daysSinceStart: int, dayOfWeek: int): int
  {
    Window.LastCompletedWeek(Window.CurrentWeek(daysSinceStart), dayOfWeek)
  }

  /** The reference behaviour of the handler, step by step, with each error where it arises. */
  function CompareSpec(param: QueryParam, roster: Option<seq<Player>>, daysSinceStart: int, dayOfWeek: int,
                       stats: map<int, WeekStats>): (reply: Reply<Comparison>)
    ensures reply.Error? ==> (reply.status == 400 && reply.message in {ProvideNames, AtLeastTwo, NotFound})
                             || (reply.status == 500 && reply.message == CompareFailed)
    ensures reply.Ok? ==> |reply.body.comparison| >= 2
  {
    match param
    case Missing => Error(400, ProvideNames)
    case NotAString => Error(500, CompareFailed)
    case Given(s) =>
      if s == [] then Error(400, ProvideNames)
      else
        var names := ParseNames(s);
        if |names| < 2 then Error(400, AtLeastTwo)
        else if roster.None? then Error(500, CompareFailed)
        else
          var found := MatchedPlayers(roster.value, names);
          if |found| != |names| then Error(400, NotFound)
          else
            var start := WindowStart(daysSinceStart, dayOfWeek);
            var last := WindowEnd(daysSinceStart, dayOfWeek);
            if !WindowFetched(stats, start, last) then Error(500, CompareFailed)
            else Ok(Evaluate(found, WindowStats(stats, start, last)))
  }

  /** The successful body: the resolved players scored over the window and ranked, the first recommended. */
  function Evaluate(found: seq<Player>, weekly: seq<WeekStats>): (c: Comparison)
    requires |found| > 0
    ensures |c.comparison| == |found|
  {
    var ranked := SortByScore(ScoreAll(found, weekly));
    Comparison(ranked[0].name, Reason(ranked[0]), ranked)
  }

  /**
   * The loop over the window's weeks that issues one statistics request each; the join
   * fails as a whole when any week's request fails (None).
   */
  method FetchWindow(stats: map<int, WeekStats>, start: int, last: int) returns (weekly: Option<seq<WeekStats>>)
    ensures weekly.Some? <==> WindowFetched(stats, start, last)
    ensures weekly.Some? ==> weekly.value == WindowStats(stats, start, last)
  {
    var weeks := Window.WeeksToFetch(start, last);
    var fetched: seq<WeekStats> := [];
    var k := 0;
    while k < |weeks|
      invariant 0 <= k <= |weeks|
      invariant forall w :: start <= w < start + k ==> w in stats
      invariant |fetched| == k
      invariant forall i :: 0 <= i < k ==> fetched[i] == stats[start + i]
    {
      if weeks[k] !in stats {
        return None;
      }
      fetched := fetched + [stats[weeks[k]]];
      k := k + 1;
    }
    return Some(fetched);
  }

  /** The ranking: copy the scored players into an array and sort it in place. */
  method Rank(scored: seq<ScoredPlayer>) returns (ranked: seq<ScoredPlayer>)
    ensures ranked == SortByScore(scored)
  {
    var a := new ScoredPlayer[|scored|](i requires 0 <= i < |scored| => scored[i]);
    assert a[..] == scored;
    SortInPlace(a);
    ranked := a[..];
  }

  /**
   * The handler: the checks in source order, the resolution loop, the window and its
   * statistics, the scoring, and the ranking.
   */
  method HandleCompare(param: QueryParam, roster: Option<seq<Player>>, daysSinceStart: int, dayOfWeek: int,
                       stats: map<int, WeekStats>) returns (reply: Reply<Comparison>)
    ensures reply == CompareSpec(param, roster, daysSinceStart, dayOfWeek, stats)
  {
    if param.Missing? || (param.Given? && param.value == []) {
      return Error(400, ProvideNames);
    }
    if param.NotAString? {
      return Error(500, CompareFailed);
    }
    var names := ParseNames(param.value);
    if |names| < 2 {
      return Error(400, AtLeastTwo);
    }
    if roster.None? {
      return Error(500, CompareFailed);
    }
    var found := ResolvePlayers(roster.value, names);
    if |found| != |names| {
      return Error(400, NotFound);
    }
    var current := Window.CurrentWeek(daysSinceStart);
    var last := Window.LastCompletedWeek(current, dayOfWeek);
    var start := Window.StartWeek(last);
    var weekly := FetchWindow(stats, start, last);
    if weekly.None? {
      return Error(500, CompareFailed);
    }
    var ranked := Rank(ScoreAll(found, weekly.value));
    var best := ranked[0];
    reply := Ok(Comparison(best.name, Reason(best), ranked));
    assert reply.body == Evaluate(found, weekly.value);
  }

  /**
   * A missing or empty parameter, or one without a comma, is answered with its 400 error
   * whatever the roster, the date and the statistics: nothing is looked up first.
   */
  lemma RejectedBeforeLookup(param: QueryParam, roster: Option<seq<Player>>, roster': Option<seq<Player>>,
                             days: int, days': int, dayOfWeek: int, dayOfWeek': int,
                             stats: map<int, WeekStats>, stats': map<int, WeekStats>)
    requires param.Missing? || (param.Given? && ',' !in param.value)
    ensures CompareSpec(param, roster, days, dayOfWeek, stats) == CompareSpec(param, roster', days', dayOfWeek', stats')
    ensures CompareSpec(param, roster, days, dayOfWeek, stats)
            == Error(400, if param.Missing? || param.value == [] then ProvideNames else AtLeastTwo)
  {
    if param.Given? {
      FewerThanTwoIffNoComma(param.value);
    }
  }

  /**
   * With at least two names and a roster, the "not found" error is returned exactly when
   * some name has no eligible roster record.
   */
  lemma NotFoundIff(s: string, players: seq<Player>, days: int, dayOfWeek: int, stats: map<int, WeekStats>)
    requires ',' in s
    ensures CompareSpec(Given(s), Some(players), days, dayOfWeek, stats) == Error(400, NotFound)
            <==> exists k :: 0 <= k < |ParseNames(s)| && FirstEligible(players, ParseNames(s)[k]).None?
  {
    FewerThanTwoIffNoComma(s);
    MatchedPlayersComplete(players, ParseNames(s));
  }

  /** The handler succeeds exactly when every step does: names, roster, resolution and all weekly fetches. */
  lemma OkIff(param: QueryParam, roster: Option<seq<Player>>, days: int, dayOfWeek: int, stats: map<int, WeekStats>)
    ensures CompareSpec(param, roster, days, dayOfWeek, stats).Ok?
            <==> param.Given? && ',' in param.value && roster.Some?
                 && (forall k :: 0 <= k < |ParseNames(param.value)| ==>
                       FirstEligible(roster.value, ParseNames(param.value)[k]).Some?)
                 && WindowFetched(stats, WindowStart(days, dayOfWeek), WindowEnd(days, dayOfWeek))
  {
    if param.Given? {
      FewerThanTwoIffNoComma(param.value);
      if roster.Some? {
        MatchedPlayersComplete(roster.value, ParseNames(param.value));
      }
    }
  }

  /** The parameter "," names two empty queries. */
  lemma CommaOnlyNames()
    ensures ParseNames(",") == ["", ""]
  {
    TrailingCommaNames("");
    assert Text.Trim("") == "";
    assert "" + "," == ",";
  }

  /**
   * A successful comparison can occur: "name," asks for the trimmed name and the empty
   * name; a roster of one player eligible for the name resolves both, so with the window's
   * statistics fetched a recommendation is made.
   */
  lemma OkExample(name: string, p: Player, days: int, dayOfWeek: int, stats: map<int, WeekStats>)
    requires ',' !in name
    requires Eligible(p, Text.Trim(name))
    requires WindowFetched(stats, WindowStart(days, dayOfWeek), WindowEnd(days, dayOfWeek))
    ensures var reply := CompareSpec(Given(name + ","), Some([p]), days, dayOfWeek, stats);
            reply.Ok? && reply.body.recommendation.Some?
  {
    var names := ParseNames(name + ",");
    TrailingCommaNames(name);
    assert FirstEligible([p], names[0]) == Some(0);
    assert FirstEligible([p], names[1]) == Some(0) by {
      EmptyQueryMatchesAnyName(p);
    }
    OkIff(Given(name + ","), Some([p]), days, dayOfWeek, stats);
    OkEntries(name + ",", [p], days, dayOfWeek, stats);
  }

  /**
   * The season starts on a Friday, so day d falls on weekday (5 + d) % 7. Day 10 is then a
   * Monday and day 11 the Tuesday after it, and the last completed week steps back from
   * week 2 to week 1 between them.
   */
  lemma CalendarWeekGoesBack()
    ensures (5 + 10) % 7 == 1 && (5 + 11) % 7 == 2
    ensures WindowEnd(10, 1) == 2 && WindowEnd(11, 2) == 1
  {
  }

  /** On the season's first day, a Friday (weekday 5), the window is week 1 alone. */
  lemma SeasonStartWindow()
    ensures WindowStart(0, 5) == 1 && WindowEnd(0, 5) == 1
    ensures WindowFetched(map[1 := map[]], WindowStart(0, 5), WindowEnd(0, 5))
  {
  }

  /** What a successful reply is made of: the ranked scores of the players resolved from the names. */
  lemma OkUnfold(s: string, players: seq<Player>, days: int, dayOfWeek: int, stats: map<int, WeekStats>)
    requires CompareSpec(Given(s), Some(players), days, dayOfWeek, stats).Ok?
    ensures |ParseNames(s)| >= 2
    ensures |MatchedPlayers(players, ParseNames(s))| == |ParseNames(s)|
    ensures WindowFetched(stats, WindowStart(days, dayOfWeek), WindowEnd(days, dayOfWeek))
    ensures var c := CompareSpec(Given(s), Some(players), days, dayOfWeek, stats).body;
            var weekly := WindowStats(stats, WindowStart(days, dayOfWeek), WindowEnd(days, dayOfWeek));
            && c.comparison == SortByScore(ScoreAll(MatchedPlayers(players, ParseNames(s)), weekly))
            && c.recommendation == c.comparison[0].name
            && c.reason == Reason(c.comparison[0])
  {
  }

  /**
   * A successful comparison ranks every named player: it is the stable descending sort of
   * the players scored in name order, each the first eligible match of its name; its
   * first entry scores highest, and the recommendation and reason are that entry's.
   */
  lemma OkRanking(s: string, players: seq<Player>, days: int, dayOfWeek: int, stats: map<int, WeekStats>)
    requires CompareSpec(Given(s), Some(players), days, dayOfWeek, stats).Ok?
    ensures var names := ParseNames(s);
            var found := MatchedPlayers(players, names);
            var c := CompareSpec(Given(s), Some(players), days, dayOfWeek, stats).body;
            && |c.comparison| == |names| >= 2
            && |found| == |names|
            && (forall k :: 0 <= k < |names| ==>
                  FirstEligible(players, names[k]).Some? && found[k] == players[FirstEligible(players, names[k]).value])
            && NonIncreasing(c.comparison)
            && (forall k :: 0 <= k < |c.comparison| ==> c.comparison[0].score >= c.comparison[k].score)
            && c.recommendation == c.comparison[0].name
            && c.reason == Reason(c.comparison[0])
  {
    var names := ParseNames(s);
    OkUnfold(s, players, days, dayOfWeek, stats);
    MatchedPlayersComplete(players, names);
    var weekly := WindowStats(stats, WindowStart(days, dayOfWeek), WindowEnd(days, dayOfWeek));
    SortByScoreProperties(ScoreAll(MatchedPlayers(players, names), weekly));
  }

  /** A successful comparison is a permutation of the scored players that keeps equal scores in name order. */
  lemma OkPermutation(s: string, players: seq<Player>, days: int, dayOfWeek: int, stats: map<int, WeekStats>)
    requires CompareSpec(Given(s), Some(players), days, dayOfWeek, stats).Ok?
    ensures WindowFetched(stats, WindowStart(days, dayOfWeek), WindowEnd(days, dayOfWeek))
    ensures var c := CompareSpec(Given(s), Some(players), days, dayOfWeek, stats).body;
            var scored := ScoreAll(MatchedPlayers(players, ParseNames(s)),
                                   WindowStats(stats, WindowStart(days, dayOfWeek), WindowEnd(days, dayOfWeek)));
            && multiset(c.comparison) == multiset(scored)
            && forall score :: WithScore(c.comparison, score) == WithScore(scored, score)
  {
    OkUnfold(s, players, days, dayOfWeek, stats);
    var weekly := WindowStats(stats, WindowStart(days, dayOfWeek), WindowEnd(days, dayOfWeek));
    SortByScoreProperties(ScoreAll(MatchedPlayers(players, ParseNames(s)), weekly));
  }

  /**
   * What every entry of a comparison satisfies: it has a name, a score of at least 0, at
   * most three weeks played, and the +10 bonus exactly when its status is "Complete data".
   */
  predicate WellScored(e: ScoredPlayer)
  {
    && e.name.Some? && e.score >= 0 && e.gamesPlayed <= Window.WeeksToAnalyze
    && (e.dataStatus == CompleteData <==> e.gamesPlayed == Window.WeeksToAnalyze)
    && e.score == Round(Average(e.weeklyPoints) * RecentWeight) + (if e.dataStatus == CompleteData then 10 else 0)
  }

  /** Players resolved from names and scored over a window of at most three weeks are well scored. */
  lemma ResolvedAreWellScored(found: seq<Player>, names: seq<string>, weekly: seq<WeekStats>)
    requires |found| == |names| && |weekly| <= Window.WeeksToAnalyze
    requires forall k :: 0 <= k < |found| ==> Eligible(found[k], names[k])
    ensures forall k :: 0 <= k < |found| ==> WellScored(ScoreAll(found, weekly)[k])
  {
    forall k | 0 <= k < |found| ensures WellScored(ScoreAll(found, weekly)[k]) {
      BonusIffComplete(found[k], weekly);
    }
  }

  /** Ranking only reorders, so well-scored entries stay well scored. */
  lemma RankedWellScored(scored: seq<ScoredPlayer>)
    requires forall k :: 0 <= k < |scored| ==> WellScored(scored[k])
    ensures forall k :: 0 <= k < |scored| ==> WellScored(SortByScore(scored)[k])
  {
    SortByScorePermutes(scored);
    var ranked := SortByScore(scored);
    forall k | 0 <= k < |ranked| ensures WellScored(ranked[k]) {
      assert ranked[k] in multiset(scored);
      var j :| 0 <= j < |scored| && scored[j] == ranked[k];
    }
  }

  /** A successful comparison recommends a named player, and every entry is well scored. */
  lemma OkEntries(s: string, players: seq<Player>, days: int, dayOfWeek: int, stats: map<int, WeekStats>)
    requires CompareSpec(Given(s), Some(players), days, dayOfWeek, stats).Ok?
    ensures var c := CompareSpec(Given(s), Some(players), days, dayOfWeek, stats).body;
            && c.recommendation.Some?
            && forall k :: 0 <= k < |c.comparison| ==> WellScored(c.comparison[k])
  {
    var names := ParseNames(s);
    var found := MatchedPlayers(players, names);
    OkUnfold(s, players, days, dayOfWeek, stats);
    MatchedPlayersEligible(players, names);
    Window.WindowBounds(days, dayOfWeek);
    var weekly := WindowStats(stats, WindowStart(days, dayOfWeek), WindowEnd(days, dayOfWeek));
    EvaluateEntries(found, names, weekly);
    assert CompareSpec(Given(s), Some(players), days, dayOfWeek, stats).body == Evaluate(found, weekly);
  }

  /** The entries of the body built from players resolved from names over at most three weeks. */
  lemma EvaluateEntries(found: seq<Player>, names: seq<string>, weekly: seq<WeekStats>)
    requires |found| == |names| > 0 && |weekly| <= Window.WeeksToAnalyze
    requires forall k :: 0 <= k < |found| ==> Eligible(found[k], names[k])
    ensures var c := Evaluate(found, weekly);
            && c.recommendation.Some?
            && forall k :: 0 <= k < |c.comparison| ==> WellScored(c.comparison[k])
  {
    ResolvedAreWellScored(found, names, weekly);
    RankedWellScored(ScoreAll(found, weekly));
  }
}
