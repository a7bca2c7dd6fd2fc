/**
 * The evaluation window of the compare handler: which week of the season it is, which
 * week counts as the last completed one, and the trailing weeks whose statistics are
 * fetched. The day count since the season start and the weekday (0 = Sunday .. 6 =
 * Saturday) are inputs instead of clock readings.
 */
module Window {

  /** The last week of the regular season. */
  const FinalWeek := 18

  /** Length of the trailing window. */
  const WeeksToAnalyze := 3

  function Min(a: int, b: int): int { if a <= b then a else b }

  function Max(a: int, b: int): int { if a >= b then a else b }

  /**
   * The 1-based week containing the given day, capped at the final week. Days before the
   * season start fall into week 0 or earlier.
   */
  function CurrentWeek(daysSinceStart: int): (w: int)
    ensures w <= FinalWeek
    ensures w < FinalWeek ==> 7 * (w - 1) <= daysSinceStart < 7 * w
    ensures w == FinalWeek ==> daysSinceStart >= 7 * (FinalWeek - 1)
    ensures daysSinceStart >= 0 ==> w >= 1
  {
    Min(daysSinceStart / 7 + 1, FinalWeek)
  }

  /**
   * On Tuesday to Saturday the current week does not count as completed; on Sunday and
   * Monday it does. Never below week 1.
   */
  function LastCompletedWeek(currentWeek: int, dayOfWeek: int): (w: int)
    ensures 1 <= w
    ensures currentWeek >= 1 ==> w <= currentWeek
    ensures currentWeek <= 1 ==> w == 1
    ensures currentWeek >= 2 ==> (w == currentWeek <==> dayOfWeek < 2)
    ensures currentWeek >= 2 && dayOfWeek >= 2 ==> w == currentWeek - 1
    ensures currentWeek >= 1 && dayOfWeek < 2 ==> w == currentWeek
  {
    Max(1, if dayOfWeek >= 2 then currentWeek - 1 else currentWeek)
  }

  /** The first week of the trailing window ending at the last completed week. */
  function StartWeek(lastCompletedWeek: int): (w: int)
    ensures 1 <= w
    ensures lastCompletedWeek >= 1 ==> w <= lastCompletedWeek && lastCompletedWeek - w + 1 <= WeeksToAnalyze
    ensures lastCompletedWeek - w + 1 == WeeksToAnalyze <==> lastCompletedWeek >= WeeksToAnalyze
    ensures lastCompletedWeek < WeeksToAnalyze ==> w == 1
  {
    Max(1, lastCompletedWeek - WeeksToAnalyze + 1)
  }

  /** The number of weeks from start to last inclusive (0 for an empty range). */
  function WindowLength(start: int, last: int): nat
  {
    if start <= last then last - start + 1 else 0
  }

  /**
   * For every day and weekday the window is well formed: it lies within weeks 1 to 18,
   * ends at the last completed week and holds one to three weeks, exactly three once the
   * last completed week is 3 or later.
   */
  lemma WindowBounds(daysSinceStart: int, dayOfWeek: int)
    ensures var current := CurrentWeek(daysSinceStart);
            var last := LastCompletedWeek(current, dayOfWeek);
            var start := StartWeek(last);
            && 1 <= start <= last <= FinalWeek
            && (current >= 1 ==> last <= current)
            && 1 <= WindowLength(start, last) <= WeeksToAnalyze
            && (WindowLength(start, last) == WeeksToAnalyze <==> last >= WeeksToAnalyze)
  {
  }

  /**
   * The loop that issues one statistics request per week of the window: the weeks from
   * start to last, in increasing order.
   */
  method WeeksToFetch(start: int, last: int) returns (weeks: seq<int>)
    ensures |weeks| == WindowLength(start, last)
    ensures forall k :: 0 <= k < |weeks| ==> weeks[k] == start + k
  {
    weeks := [];
    var week := start;
    while week <= last
      invariant start <= week
      invariant week <= last + 1 || week == start
      invariant |weeks| == week - start
      invariant forall k :: 0 <= k < |weeks| ==> weeks[k] == start + k
    {
      weeks := weeks + [week];
      week := week + 1;
    }
  }
}
