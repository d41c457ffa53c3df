/** Calendar dates as day numbers, and the inclusive date ranges the engine
    walks (`daterange` in src/backend/utils.py, src/daulingo/compute_user_state_daily.py
    and scripts/2_compute_user_state_daily.py). */
module Dates {

  /** A calendar date as a day number: day 0 is 1970-01-01, a Thursday.
      `d + k` is `d + timedelta(days=k)`. */
  type Date = int

  /** Python's `date.weekday()`: Monday is 0, Friday 4, Saturday 5, Sunday 6. */
  function Weekday(d: Date): (w: nat)
    ensures w < 7
  {
    (d + 3) % 7
  }

  predicate IsWeekend(d: Date) {
    Weekday(d) >= 5
  }

  /** Moving a date by `k` days moves its weekday by `k` modulo 7. */
  lemma WeekdayShift(d: Date, k: int)
    ensures Weekday(d + k) == (Weekday(d) + k) % 7
  {
    var q := (d + 3) / 7;
    assert d + 3 == 7 * q + Weekday(d);
    assert d + k + 3 == 7 * q + (Weekday(d) + k);
  }

  /** `daterange(start, end)`: the generator advances `d` by one day while `d <= end`. */
  method DateRange(start: Date, end: Date) returns (days: seq<Date>)
    ensures |days| == if start <= end then end - start + 1 else 0
    ensures forall i :: 0 <= i < |days| ==> days[i] == start + i
    ensures forall d :: d in days <==> start <= d <= end
    ensures forall i, j :: 0 <= i < j < |days| ==> days[i] < days[j]
  {
    days := [];
    var d := start;
    while d <= end
      invariant start <= d
      invariant start <= end ==> d <= end + 1
      invariant start > end ==> d == start
      invariant |days| == d - start
      invariant forall i :: 0 <= i < |days| ==> days[i] == start + i
    {
      days := days + [d];
      d := d + 1;
    }
    forall x | start <= x <= end
      ensures x in days
    {
      assert days[x - start] == x;
    }
  }
}
