/** The `fact_activity` event log and its queries
    (src/backend/repositories/fact_activity_repo.py, with the same queries as
    `load_active_dates` / `load_last_active_before_start` of
    src/daulingo/compute_user_state_daily.py and scripts/2_compute_user_state_daily.py). */
module FactActivity {
  import opened Dates
  import opened Tables
  import opened Wrappers

  /** A row of `fact_activity`: who was active, and the calendar date
      `DATE(occurred_at)` the queries group it by. */
  datatype Event = Event(userId: UserId, day: Date)

  /** `get_min_max_dates` on an empty log raises. */
  datatype ActivityError = EmptyActivityTable

  /** The distinct dates in [lo, hi] on which `u` has an event. */
  function ActiveDays(evs: seq<Event>, u: UserId, lo: Date, hi: Date): set<Date>
    decreases |evs|
  {
    if evs == [] then {}
    else
      var e := evs[|evs| - 1];
      ActiveDays(evs[..|evs| - 1], u, lo, hi) + (if e.userId == u && lo <= e.day <= hi then {e.day} else {})
  }

  /** A date is an active day of `u` in [lo, hi] exactly when it lies in the
      range and the log holds an event of `u` on it. */
  lemma {:induction false} ActiveDaysMembership(evs: seq<Event>, u: UserId, lo: Date, hi: Date)
    ensures forall d :: d in ActiveDays(evs, u, lo, hi) <==>
      lo <= d <= hi && exists i :: 0 <= i < |evs| && evs[i] == Event(u, d)
    decreases |evs|
  {
    if evs != [] {
      var init := evs[..|evs| - 1];
      ActiveDaysMembership(init, u, lo, hi);
      assert forall i :: 0 <= i < |init| ==> init[i] == evs[i];
      forall d | lo <= d <= hi && exists i :: 0 <= i < |evs| && evs[i] == Event(u, d)
        ensures d in ActiveDays(evs, u, lo, hi)
      {
        var i :| 0 <= i < |evs| && evs[i] == Event(u, d);
        if i < |init| {
          assert init[i] == Event(u, d);
        }
      }
    }
  }

  /** The latest date before `start` on which `u` has an event, if any: the
      `MAX(DATE(occurred_at)) ... WHERE DATE(occurred_at) < start` of one user. */
  function LastBefore(evs: seq<Event>, u: UserId, start: Date): Option<Date>
    decreases |evs|
  {
    if evs == [] then None
    else
      var prev := LastBefore(evs[..|evs| - 1], u, start);
      var e := evs[|evs| - 1];
      if e.userId == u && e.day < start && (prev.None? || prev.value < e.day) then Some(e.day) else prev
  }

  /** `LastBefore` is None exactly when `u` has no event before `start`, and
      otherwise the date of one such event that no other such event follows. */
  lemma {:induction false} LastBeforeIsLatest(evs: seq<Event>, u: UserId, start: Date)
    ensures LastBefore(evs, u, start).None? <==>
      forall i :: 0 <= i < |evs| && evs[i].userId == u ==> evs[i].day >= start
    ensures LastBefore(evs, u, start).Some? ==>
      var m := LastBefore(evs, u, start).value;
      && m < start
      && (exists i :: 0 <= i < |evs| && evs[i] == Event(u, m))
      && (forall i :: 0 <= i < |evs| && evs[i].userId == u && evs[i].day < start ==> evs[i].day <= m)
    decreases |evs|
  {
    if evs != [] {
      var init := evs[..|evs| - 1];
      LastBeforeIsLatest(init, u, start);
      assert forall i :: 0 <= i < |init| ==> init[i] == evs[i];
      var prev := LastBefore(init, u, start);
      if prev.Some? {
        var i :| 0 <= i < |init| && init[i] == Event(u, prev.value);
        assert evs[i] == Event(u, prev.value);
      }
    }
  }

  /** The latest event date, if any: `SELECT MAX(occurred_at)` truncated to
      its date. */
  function LatestDay(evs: seq<Event>): Option<Date>
    decreases |evs|
  {
    if evs == [] then None
    else
      var prev := LatestDay(evs[..|evs| - 1]);
      var d := evs[|evs| - 1].day;
      if prev.None? || prev.value < d then Some(d) else prev
  }

  /** `LatestDay` is None exactly on an empty log, and otherwise an event date
      no event date exceeds. */
  lemma {:induction false} LatestDayIsMax(evs: seq<Event>)
    ensures LatestDay(evs).None? <==> evs == []
    ensures LatestDay(evs).Some? ==>
      && (exists i :: 0 <= i < |evs| && evs[i].day == LatestDay(evs).value)
      && (forall i :: 0 <= i < |evs| ==> evs[i].day <= LatestDay(evs).value)
    decreases |evs|
  {
    if evs != [] {
      var init := evs[..|evs| - 1];
      LatestDayIsMax(init);
      assert forall i :: 0 <= i < |init| ==> init[i] == evs[i];
      var prev := LatestDay(init);
      if prev.Some? {
        var i :| 0 <= i < |init| && init[i].day == prev.value;
        assert evs[i].day == prev.value;
      }
    }
  }

  class FactActivityRepo {
    var events: seq<Event>

    constructor (initial: seq<Event>)
      ensures events == initial
    {
      events := initial;
    }

    /** `active_dates_by_user`: every requested user (and no other) mapped to
        the distinct dates in [readFrom, windowEnd] on which they were active;
        no user requested gives an empty map. The query's rows are the events
        that pass its WHERE clause, in log order. */
    method ActiveDatesByUser(readFrom: Date, windowEnd: Date, userIds: seq<UserId>) returns (out: map<UserId, set<Date>>)
      ensures forall u :: u in out <==> u in userIds
      ensures forall u :: u in out ==> out[u] == ActiveDays(events, u, readFrom, windowEnd)
    {
      if userIds == [] {
        return map[];
      }
      out := map[];
      var i := 0;
      while i < |events|
        invariant 0 <= i <= |events|
        invariant forall u :: u in out ==> u in userIds
        invariant forall u :: u in out ==> out[u] == ActiveDays(events[..i], u, readFrom, windowEnd)
        invariant forall u :: u in userIds && u !in out ==> ActiveDays(events[..i], u, readFrom, windowEnd) == {}
      {
        var e := events[i];
        assert events[..i + 1][..i] == events[..i];
        if e.userId in userIds && readFrom <= e.day <= windowEnd {
          var seen := if e.userId in out then out[e.userId] else {};
          out := out[e.userId := seen + {e.day}];
        }
        i := i + 1;
      }
      assert events[..i] == events;
      var j := 0;
      while j < |userIds|
        invariant 0 <= j <= |userIds|
        invariant forall u :: u in out ==> u in userIds
        invariant forall k :: 0 <= k < j ==> userIds[k] in out
        invariant forall u :: u in out ==> out[u] == ActiveDays(events, u, readFrom, windowEnd)
        invariant forall u :: u in userIds && u !in out ==> ActiveDays(events, u, readFrom, windowEnd) == {}
      {
        if userIds[j] !in out {
          out := out[userIds[j] := {}];
        }
        j := j + 1;
      }
    }

    /** `last_active_before_start`: every requested user (and no other) mapped
        to their latest active date before `windowStart`, or None. The
        query's `MAX ... GROUP BY user_id` is computed by one scan of the log. */
    method LastActiveBeforeStart(windowStart: Date, userIds: seq<UserId>) returns (out: map<UserId, Option<Date>>)
      ensures forall u :: u in out <==> u in userIds
      ensures forall u :: u in out ==> out[u] == LastBefore(events, u, windowStart)
    {
      if userIds == [] {
        return map[];
      }
      out := map u | u in userIds :: None;
      var i := 0;
      while i < |events|
        invariant 0 <= i <= |events|
        invariant forall u :: u in out <==> u in userIds
        invariant forall u :: u in out ==> out[u] == LastBefore(events[..i], u, windowStart)
      {
        var e := events[i];
        assert events[..i + 1][..i] == events[..i];
        if e.userId in out && e.day < windowStart && (out[e.userId].None? || out[e.userId].value < e.day) {
          out := out[e.userId := Some(e.day)];
        }
        i := i + 1;
      }
      assert events[..i] == events;
    }

    /** `bulk_insert`: appends the rows and reports how many there were (none
        for an empty batch). */
    method BulkInsert(rows: seq<Event>) returns (n: nat)
      modifies this
      ensures events == old(events) + rows
      ensures n == |rows|
    {
      if rows == [] {
        assert events + rows == events;
        return 0;
      }
      events := events + rows;
      n := |rows|;
    }

    /** `get_min_max_dates`: the earliest and the latest event date; an empty
        log is an error. */
    method GetMinMaxDates() returns (r: Result<(Date, Date), ActivityError>)
      ensures r.Failure? <==> events == []
      ensures r.Success? ==>
        && (exists i :: 0 <= i < |events| && events[i].day == r.value.0)
        && (exists i :: 0 <= i < |events| && events[i].day == r.value.1)
        && (forall i :: 0 <= i < |events| ==> r.value.0 <= events[i].day <= r.value.1)
      ensures r.Success? ==> LatestDay(events) == Some(r.value.1)
    {
      if events == [] {
        return Failure(EmptyActivityTable);
      }
      var lo := events[0].day;
      var hi := events[0].day;
      var i := 1;
      while i < |events|
        invariant 1 <= i <= |events|
        invariant exists k :: 0 <= k < i && events[k].day == lo
        invariant exists k :: 0 <= k < i && events[k].day == hi
        invariant forall k :: 0 <= k < i ==> lo <= events[k].day <= hi
      {
        if events[i].day < lo {
          lo := events[i].day;
        }
        if events[i].day > hi {
          hi := events[i].day;
        }
        i := i + 1;
      }
      LatestDayIsMax(events);
      r := Success((lo, hi));
    }
  }
}
