/** `components/GoalCard.tsx`: the time-elapsed progress a goal card shows, from the goal's
    creation to its target. "Now" is the parameter `now`. */
module GoalCard {
  import opened Wrappers
  import opened Calendar
  import opened Types
  import opened Rounding

  /** `calculateProgress`: `Math.round(min(100, max(0, elapsed / total * 100)))`, with the
      early returns for a missing target (0), a target before the start (100) and a zero
      duration (0). */
  function TimeProgress(g: Goal, now: Time): (p: nat)
    ensures p <= 100
    ensures g.targetDate.None? ==> p == 0
    ensures g.targetDate.Some? && Ms(g.targetDate.value) < Ms(g.createdAt) ==> p == 100
    ensures g.targetDate == Some(g.createdAt) ==> p == 0
    ensures g.targetDate.Some? && Ms(g.createdAt) < Ms(g.targetDate.value) ==>
      && (Ms(now) <= Ms(g.createdAt) ==> p == 0)
      && (Ms(g.targetDate.value) <= Ms(now) ==> p == 100)
      && (Ms(g.createdAt) < Ms(now) < Ms(g.targetDate.value) ==>
            var total, elapsed := Ms(g.targetDate.value) - Ms(g.createdAt), Ms(now) - Ms(g.createdAt);
            2 * total * p <= 200 * elapsed + total < 2 * total * (p + 1))
  {
    match g.targetDate
    case None => 0
    case Some(target) =>
      if Ms(target) < Ms(g.createdAt) then 100
      else
        var total := Ms(target) - Ms(g.createdAt);
        var elapsed := Ms(now) - Ms(g.createdAt);
        if total <= 0 then 0
        else if elapsed <= 0 then 0
        else if elapsed >= total then 100
        else RoundPercentRange(elapsed, total); RoundPercent(elapsed, total)
  }

  /** Progress never goes backwards as time passes. */
  lemma TimeProgressMonotone(g: Goal, now1: Time, now2: Time)
    requires Ms(now1) <= Ms(now2)
    ensures TimeProgress(g, now1) <= TimeProgress(g, now2)
  {
    if g.targetDate.Some? && Ms(g.createdAt) < Ms(g.targetDate.value) {
      var total := Ms(g.targetDate.value) - Ms(g.createdAt);
      var e1, e2 := Ms(now1) - Ms(g.createdAt), Ms(now2) - Ms(g.createdAt);
      if 0 < e1 && e2 < total {
        RoundPercentMonotone(e1, e2, total);
      }
    }
  }
}
