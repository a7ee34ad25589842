/** The time window of the collector: "today" in the fixed UTC+8 offset,
    computed from an epoch-seconds clock reading with integer arithmetic only. */
module DayWindow {

  const SecondsPerDay: nat := 86400
  const Utc8Offset: nat := 8 * 3600

  /** The first second of the current UTC+8 calendar day.
      The clock reading is a non-negative number of seconds, so the
      JavaScript remainder the route uses agrees with Dafny's `%`. */
  function StartOfDayUtc8(nowSec: nat): (cutoff: int)
    ensures cutoff <= nowSec < cutoff + SecondsPerDay
    ensures (cutoff + Utc8Offset) % SecondsPerDay == 0
  {
    nowSec - (nowSec + Utc8Offset) % SecondsPerDay
  }

  /** The cutoff is the only UTC+8 midnight in the day that ends after `nowSec`:
      any boundary with the two properties of `StartOfDayUtc8` is that value. */
  lemma CutoffIsUnique(nowSec: nat, c: int)
    requires c <= nowSec < c + SecondsPerDay
    requires (c + Utc8Offset) % SecondsPerDay == 0
    ensures c == StartOfDayUtc8(nowSec)
  {
  }
}
