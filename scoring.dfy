/**
 * Per-player scoring of the compare handler: the PPR points of each week of the window,
 * the recent average, the weighted score with its consistency bonus, and the data status.
 * Points are exact reals; `Math.round` is floor(x + 1/2).
 */
module Scoring {
  import opened Base
  import opened Players
  import Window

  /** One player's line in a week's statistics; `pts_ppr` may be missing or null. */
  datatype StatLine = StatLine(ptsPpr: Option<real>)

  /** A week's statistics, keyed by player id. */
  type WeekStats = map<string, StatLine>

  /** The per-player entry of the comparison. */
  datatype ScoredPlayer = ScoredPlayer(
    name: Option<string>,
    position: Option<string>,
    team: string,
    score: int,
    recentAvg: real,
    gamesPlayed: nat,
    weeklyPoints: seq<real>,
    dataStatus: string)

  const RecentWeight: real := 5.0
  const ConsistencyBonus: real := 10.0
  const LimitedData := "Limited data - stats may be updating"
  const CompleteData := "Complete data"
  const FreeAgent := "Free Agent"

  /** A week's points for a player: `pts_ppr`, or 0 when the player or the value is missing. */
  function PointsIn(week: WeekStats, id: string): (r: real)
    ensures id !in week || week[id].ptsPpr.None? ==> r == 0.0
    ensures id in week && week[id].ptsPpr.Some? ==> r == week[id].ptsPpr.value
  {
    if id in week && week[id].ptsPpr.Some? then week[id].ptsPpr.value else 0.0
  }

  /** The points of the weeks the player scored in, in week order; no more than there are weeks. */
  function WeeklyPoints(weeks: seq<WeekStats>, id: string): (pts: seq<real>)
    ensures |pts| <= |weeks|
    ensures forall k :: 0 <= k < |pts| ==> pts[k] > 0.0
  {
    if weeks == [] then []
    else
      var p := PointsIn(weeks[0], id);
      (if p > 0.0 then [p] else []) + WeeklyPoints(weeks[1..], id)
  }

  /** Weeks are read in order: the points of two stretches of weeks concatenate. */
  lemma {:induction false} WeeklyPointsAppend(a: seq<WeekStats>, b: seq<WeekStats>, id: string)
    ensures WeeklyPoints(a + b, id) == WeeklyPoints(a, id) + WeeklyPoints(b, id)
  {
    if a == [] {
      assert a + b == b;
    } else {
      assert (a + b)[1..] == a[1..] + b;
      WeeklyPointsAppend(a[1..], b, id);
    }
  }

  /**
   * Only weeks without positive points are dropped: every week is kept exactly when the
   * player scored in all of them, and then the list is the weeks' points one for one.
   */
  lemma {:induction false} WeeklyPointsAllPlayed(weeks: seq<WeekStats>, id: string)
    ensures |WeeklyPoints(weeks, id)| == |weeks| <==> forall k :: 0 <= k < |weeks| ==> PointsIn(weeks[k], id) > 0.0
    ensures |WeeklyPoints(weeks, id)| == |weeks| ==>
              forall k :: 0 <= k < |weeks| ==> WeeklyPoints(weeks, id)[k] == PointsIn(weeks[k], id)
  {
    if weeks != [] {
      WeeklyPointsAllPlayed(weeks[1..], id);
      assert forall k :: 1 <= k < |weeks| ==> weeks[1..][k - 1] == weeks[k];
    }
  }

  /** A player absent from every week's statistics has no points at all. */
  lemma {:induction false} WeeklyPointsAbsent(weeks: seq<WeekStats>, id: string)
    requires forall k :: 0 <= k < |weeks| ==> id !in weeks[k]
    ensures WeeklyPoints(weeks, id) == []
  {
    if weeks != [] {
      WeeklyPointsAbsent(weeks[1..], id);
    }
  }

  function Sum(xs: seq<real>): real
  {
    if xs == [] then 0.0 else xs[0] + Sum(xs[1..])
  }

  /** The recent average: the mean of the list, 0 for an empty list. */
  function Average(xs: seq<real>): (r: real)
    ensures xs != [] ==> r * (|xs| as real) == Sum(xs)
    ensures xs == [] ==> r == 0.0
  {
    if |xs| > 0 then Sum(xs) / (|xs| as real) else 0.0
  }

  lemma {:induction false} SumBounds(xs: seq<real>, lo: real, hi: real)
    requires forall k :: 0 <= k < |xs| ==> lo <= xs[k] <= hi
    ensures (|xs| as real) * lo <= Sum(xs) <= (|xs| as real) * hi
  {
    if xs != [] {
      SumBounds(xs[1..], lo, hi);
      assert (|xs| as real) * lo == lo + ((|xs| - 1) as real) * lo;
      assert (|xs| as real) * hi == hi + ((|xs| - 1) as real) * hi;
    }
  }

  /** The mean of a non-empty list lies between any lower and upper bound of its elements. */
  lemma AverageBounds(xs: seq<real>, lo: real, hi: real)
    requires |xs| > 0
    requires forall k :: 0 <= k < |xs| ==> lo <= xs[k] <= hi
    ensures lo <= Average(xs) <= hi
  {
    SumBounds(xs, lo, hi);
    var n := |xs| as real;
    var a := Average(xs);
    CancelFactor(lo, a, n);
    CancelFactor(a, hi, n);
  }

  /** A positive factor can be cancelled from both sides of an inequality. */
  lemma CancelFactor(x: real, y: real, n: real)
    requires n > 0.0 && x * n <= y * n
    ensures x <= y
  {
  }

  /** A list of positive numbers has a positive sum unless it is empty. */
  lemma {:induction false} SumOfPositives(xs: seq<real>)
    requires forall k :: 0 <= k < |xs| ==> xs[k] > 0.0
    ensures Sum(xs) >= 0.0
    ensures |xs| > 0 ==> Sum(xs) > 0.0
  {
    if xs != [] {
      SumOfPositives(xs[1..]);
    }
  }

  /** The average of a player's weekly points is never negative, and positive once any week counts. */
  lemma AveragePointsSign(weeks: seq<WeekStats>, id: string)
    ensures Average(WeeklyPoints(weeks, id)) >= 0.0
    ensures Average(WeeklyPoints(weeks, id)) > 0.0 <==> |WeeklyPoints(weeks, id)| > 0
  {
    var pts := WeeklyPoints(weeks, id);
    SumOfPositives(pts);
    if |pts| > 0 {
      QuotientSign(Sum(pts), |pts| as real);
    }
  }

  lemma QuotientSign(a: real, n: real)
    requires a > 0.0 && n > 0.0
    ensures a / n > 0.0
  {
  }

  /** `Math.round`: the nearest integer, halves rounded up. */
  function Round(x: real): (r: int)
    ensures x - 0.5 < r as real <= x + 0.5
  {
    (x + 0.5).Floor
  }

  /** Rounding commutes with adding a whole number. */
  lemma RoundShift(x: real, n: int)
    ensures Round(x + n as real) == Round(x) + n
  {
  }

  /** Rounding never reverses an order. */
  lemma RoundMonotone(x: real, y: real)
    requires x <= y
    ensures Round(x) <= Round(y)
  {
  }

  /**
   * The score: five times the recent average, ten more when all three weeks of the
   * window have points, rounded; 0 for an inactive player.
   */
  function Score(recentAvg: real, gamesPlayed: nat, active: bool): (s: int)
    ensures !active ==> s == 0
    ensures active && recentAvg >= 0.0 ==> s >= 0
  {
    var raw := recentAvg * RecentWeight;
    var withBonus := if gamesPlayed == Window.WeeksToAnalyze then raw + ConsistencyBonus else raw;
    Round(if !active then 0.0 else withBonus)
  }

  /** "Limited data" while fewer than three weeks have points, "Complete data" after. */
  function DataStatus(gamesPlayed: nat): (r: string)
    ensures r == CompleteData || r == LimitedData
    ensures r == CompleteData <==> gamesPlayed >= Window.WeeksToAnalyze
  {
    if gamesPlayed < Window.WeeksToAnalyze then LimitedData else CompleteData
  }

  /** The average as shown: rounded to one decimal. */
  function ShownAverage(avg: real): (shown: real)
    ensures avg - 0.05 < shown <= avg + 0.05
    ensures shown * 10.0 == (shown * 10.0).Floor as real
  {
    (Round(avg * 10.0) as real) / 10.0
  }

  /** The entry built for one resolved player from the window's weekly statistics. */
  function ScorePlayer(p: Player, weeks: seq<WeekStats>): (s: ScoredPlayer)
    ensures s.gamesPlayed == |s.weeklyPoints| <= |weeks|
    ensures s.score >= 0 && s.recentAvg >= 0.0
    ensures s.name == p.fullName && s.position == p.position
    ensures s.team == if Truthy(p.team) then p.team.value else FreeAgent
    ensures s.weeklyPoints == WeeklyPoints(weeks, p.id)
    ensures s.recentAvg == ShownAverage(Average(s.weeklyPoints))
    ensures s.score == Score(Average(s.weeklyPoints), s.gamesPlayed, p.active)
    ensures s.dataStatus == DataStatus(s.gamesPlayed)
  {
    var pts := WeeklyPoints(weeks, p.id);
    var avg := Average(pts);
    AveragePointsSign(weeks, p.id);
    ScoredPlayer(
      p.fullName,
      p.position,
      if Truthy(p.team) then p.team.value else FreeAgent,
      Score(avg, |pts|, p.active),
      ShownAverage(avg),
      |pts|,
      pts,
      DataStatus(|pts|))
  }

  /** The `map` over the resolved players, keeping their order. */
  function ScoreAll(players: seq<Player>, weeks: seq<WeekStats>): (scored: seq<ScoredPlayer>)
    ensures |scored| == |players|
    ensures forall i :: 0 <= i < |players| ==> scored[i] == ScorePlayer(players[i], weeks)
  {
    seq(|players|, i requires 0 <= i < |players| => ScorePlayer(players[i], weeks))
  }

  /**
   * For an active player and a window of at most three weeks, the bonus is added exactly
   * when the status is "Complete data", and it adds exactly 10 to the rounded weighted average.
   */
  lemma BonusIffComplete(p: Player, weeks: seq<WeekStats>)
    requires |weeks| <= Window.WeeksToAnalyze
    requires p.active
    ensures var s := ScorePlayer(p, weeks);
            var weighted := Round(Average(s.weeklyPoints) * RecentWeight);
            && (s.dataStatus == CompleteData <==> s.gamesPlayed == Window.WeeksToAnalyze)
            && s.score == (if s.dataStatus == CompleteData then weighted + 10 else weighted)
  {
    var pts := WeeklyPoints(weeks, p.id);
    RoundShift(Average(pts) * RecentWeight, 10);
  }

  /** With a window shorter than three weeks no player ever gets the bonus. */
  lemma NoBonusInShortWindow(p: Player, weeks: seq<WeekStats>)
    requires |weeks| < Window.WeeksToAnalyze
    ensures var s := ScorePlayer(p, weeks);
            s.dataStatus == LimitedData && s.score == Score(Average(s.weeklyPoints), 0, p.active)
  {
  }

  /** Between two active players with the same number of weeks played, the higher average never scores lower. */
  lemma ScoreMonotone(avgA: real, avgB: real, gamesPlayed: nat)
    requires avgA <= avgB
    ensures Score(avgA, gamesPlayed, true) <= Score(avgB, gamesPlayed, true)
  {
    var bonus := if gamesPlayed == Window.WeeksToAnalyze then ConsistencyBonus else 0.0;
    RoundMonotone(avgA * RecentWeight + bonus, avgB * RecentWeight + bonus);
  }

  /**
   * Every resolved player is active and has a team, so neither the zeroing of inactive
   * players nor the "Free Agent" fallback ever applies to them.
   */
  lemma ResolvedScoreUnzeroed(p: Player, query: string, weeks: seq<WeekStats>)
    requires Eligible(p, query)
    ensures ScorePlayer(p, weeks).team == p.team.value
    ensures ScorePlayer(p, weeks).score
            == Round(Average(WeeklyPoints(weeks, p.id)) * RecentWeight
                     + (if |WeeklyPoints(weeks, p.id)| == Window.WeeksToAnalyze then ConsistencyBonus else 0.0))
  {
  }

  /** Three weeks of 20, 15 and 25 points: an average of 20, complete data, a score of 110. */
  lemma ThreeWeekExample()
    ensures var weeks := [map["4046" := StatLine(Some(20.0))], map["4046" := StatLine(Some(15.0))],
                          map["4046" := StatLine(Some(25.0))]];
            var s := ScorePlayer(Player("4046", Some("Patrick Mahomes"), Some("KC"), Some("QB"), true), weeks);
            s.weeklyPoints == [20.0, 15.0, 25.0] && s.recentAvg == 20.0 && s.score == 110
            && s.dataStatus == CompleteData && s.team == "KC"
  {
    var weeks := [map["4046" := StatLine(Some(20.0))], map["4046" := StatLine(Some(15.0))],
                  map["4046" := StatLine(Some(25.0))]];
    assert WeeklyPoints(weeks[2..], "4046") == [25.0];
    assert WeeklyPoints(weeks[1..], "4046") == [15.0, 25.0];
    assert WeeklyPoints(weeks, "4046") == [20.0, 15.0, 25.0];
    assert Sum([20.0, 15.0, 25.0]) == 60.0;
  }
}
