/** The first pass of the window recompute: one row per (day, user) of the
    window from the user's first-seen date on, classified but without its
    last-active date yet (src/backend/services/user_state_service.py,
    src/daulingo/compute_user_state_daily.py, scripts/2_compute_user_state_daily.py). */
module Window {
  import opened Dates
  import opened Tables
  import opened Wrappers

  /** The classifier the engine calls: (as_of, first_seen, active dates) to a
      state. The engine only calls it with as_of on or after first_seen. */
  type Classifier = (Date, Date, set<Date>) -> State

  /** `active_dates_by_user.get(uid, set())`. */
  function ActiveOf(active: map<UserId, set<Date>>, u: UserId): set<Date> {
    if u in active then active[u] else {}
  }

  /** The row the first pass appends for `u` on `asOf`. */
  function RowFor(asOf: Date, u: UserId, fs: map<UserId, Date>, active: map<UserId, set<Date>>, classify: Classifier): StateRow
    requires u in fs
  {
    StateRow(asOf, u, classify(asOf, fs[u], ActiveOf(active, u)), None)
  }

  /** The rows of one day: each user of `us` in order, skipping those first
      seen after `asOf`. */
  function DayRows(asOf: Date, us: seq<UserId>, fs: map<UserId, Date>, active: map<UserId, set<Date>>, classify: Classifier): seq<StateRow>
    requires forall u :: u in us ==> u in fs
    decreases |us|
  {
    if us == [] then []
    else
      var u := us[|us| - 1];
      DayRows(asOf, us[..|us| - 1], fs, active, classify)
        + (if asOf < fs[u] then [] else [RowFor(asOf, u, fs, active, classify)])
  }

  /** The rows of the days [start, end], day by day. */
  function WindowRows(start: Date, end: Date, us: seq<UserId>, fs: map<UserId, Date>, active: map<UserId, set<Date>>, classify: Classifier): seq<StateRow>
    requires forall u :: u in us ==> u in fs
    decreases end - start
  {
    if end < start then []
    else WindowRows(start, end - 1, us, fs, active, classify) + DayRows(end, us, fs, active, classify)
  }

  /** The nested loop of the first pass: for each day of `daterange(start, end)`,
      for each user, a classified row unless the day is before the user's
      first-seen date. */
  method FirstPass(start: Date, end: Date, userIds: seq<UserId>, fs: map<UserId, Date>, active: map<UserId, set<Date>>, classify: Classifier)
    returns (rows: seq<StateRow>)
    requires forall u :: u in userIds ==> u in fs
    ensures rows == WindowRows(start, end, userIds, fs, active, classify)
  {
    rows := [];
    var days := DateRange(start, end);
    var k := 0;
    while k < |days|
      invariant 0 <= k <= |days|
      invariant rows == WindowRows(start, start + k - 1, userIds, fs, active, classify)
    {
      var asOf := days[k];
      ghost var before := rows;
      var j := 0;
      while j < |userIds|
        invariant 0 <= j <= |userIds|
        invariant rows == before + DayRows(asOf, userIds[..j], fs, active, classify)
      {
        assert userIds[..j + 1][..j] == userIds[..j];
        var uid := userIds[j];
        var f := fs[uid];
        if asOf >= f {
          var state := classify(asOf, f, ActiveOf(active, uid));
          rows := rows + [StateRow(asOf, uid, state, None)];
        }
        j := j + 1;
      }
      assert userIds[..j] == userIds;
      k := k + 1;
    }
  }

  /** Every row of a day is that day's classified row of one of the users,
      one first seen by then. */
  lemma {:induction false} DayRowsSound(asOf: Date, us: seq<UserId>, fs: map<UserId, Date>, active: map<UserId, set<Date>>, classify: Classifier)
    requires forall u :: u in us ==> u in fs
    ensures forall i :: 0 <= i < |DayRows(asOf, us, fs, active, classify)| ==>
      var r := DayRows(asOf, us, fs, active, classify)[i];
      r.userId in us && fs[r.userId] <= asOf && r == RowFor(asOf, r.userId, fs, active, classify)
    decreases |us|
  {
    if us != [] {
      var init := us[..|us| - 1];
      assert forall v :: v in init ==> v in us;
      DayRowsSound(asOf, init, fs, active, classify);
    }
  }

  /** Some row of `rows` belongs to `u`. */
  predicate HasUserRow(rows: seq<StateRow>, u: UserId) {
    exists i :: 0 <= i < |rows| && rows[i].userId == u
  }

  /** Every user first seen by the day has a row that day. */
  lemma {:induction false} DayRowsComplete(asOf: Date, us: seq<UserId>, fs: map<UserId, Date>, active: map<UserId, set<Date>>, classify: Classifier)
    requires forall u :: u in us ==> u in fs
    ensures forall u :: u in us && fs[u] <= asOf ==> HasUserRow(DayRows(asOf, us, fs, active, classify), u)
    decreases |us|
  {
    if us != [] {
      var init := us[..|us| - 1];
      var u := us[|us| - 1];
      assert forall v :: v in init ==> v in us;
      DayRowsComplete(asOf, init, fs, active, classify);
      var prev := DayRows(asOf, init, fs, active, classify);
      var all := DayRows(asOf, us, fs, active, classify);
      assert all == prev + (if asOf < fs[u] then [] else [RowFor(asOf, u, fs, active, classify)]);
      forall v | v in us && fs[v] <= asOf
        ensures HasUserRow(all, v)
      {
        if v == u {
          assert all[|all| - 1].userId == v;
        } else {
          assert v in init;
          var i :| 0 <= i < |prev| && prev[i].userId == v;
          assert all[i] == prev[i];
        }
      }
    }
  }

  /** With distinct users, no user has two rows on one day. */
  lemma {:induction false} DayRowsDistinct(asOf: Date, us: seq<UserId>, fs: map<UserId, Date>, active: map<UserId, set<Date>>, classify: Classifier)
    requires forall u :: u in us ==> u in fs
    requires DistinctIds(us)
    ensures forall i, j :: 0 <= i < j < |DayRows(asOf, us, fs, active, classify)| ==>
      DayRows(asOf, us, fs, active, classify)[i].userId != DayRows(asOf, us, fs, active, classify)[j].userId
    decreases |us|
  {
    if us != [] {
      var init := us[..|us| - 1];
      var u := us[|us| - 1];
      assert forall v :: v in init ==> v in us;
      assert u !in init;
      DayRowsDistinct(asOf, init, fs, active, classify);
      DayRowsSound(asOf, init, fs, active, classify);
    }
  }

  /** What `DayRowsSound`, `DayRowsComplete` and `DayRowsDistinct` state. */
  lemma DayRowsContent(asOf: Date, us: seq<UserId>, fs: map<UserId, Date>, active: map<UserId, set<Date>>, classify: Classifier)
    requires forall u :: u in us ==> u in fs
    ensures forall i :: 0 <= i < |DayRows(asOf, us, fs, active, classify)| ==>
      var r := DayRows(asOf, us, fs, active, classify)[i];
      r.userId in us && fs[r.userId] <= asOf && r == RowFor(asOf, r.userId, fs, active, classify)
    ensures forall u :: u in us && fs[u] <= asOf ==> HasUserRow(DayRows(asOf, us, fs, active, classify), u)
    ensures DistinctIds(us) ==> forall i, j :: 0 <= i < j < |DayRows(asOf, us, fs, active, classify)| ==>
      DayRows(asOf, us, fs, active, classify)[i].userId != DayRows(asOf, us, fs, active, classify)[j].userId
  {
    DayRowsSound(asOf, us, fs, active, classify);
    DayRowsComplete(asOf, us, fs, active, classify);
    if DistinctIds(us) {
      DayRowsDistinct(asOf, us, fs, active, classify);
    }
  }

  /** `r` is the classified row of a (day, user) pair with the day in
      [start, end] and on or after the user's first-seen date. */
  predicate SoundRow(r: StateRow, start: Date, end: Date, us: seq<UserId>, fs: map<UserId, Date>, active: map<UserId, set<Date>>, classify: Classifier) {
    && start <= r.asOf <= end && r.userId in us && r.userId in fs && fs[r.userId] <= r.asOf
    && r == RowFor(r.asOf, r.userId, fs, active, classify)
  }

  /** Every row of the window is the classified row of a (day, user) pair
      with the day in [start, end] and on or after the user's first-seen
      date. */
  lemma {:induction false} WindowRowsSound(start: Date, end: Date, us: seq<UserId>, fs: map<UserId, Date>, active: map<UserId, set<Date>>, classify: Classifier)
    requires forall u :: u in us ==> u in fs
    ensures forall i :: 0 <= i < |WindowRows(start, end, us, fs, active, classify)| ==>
      SoundRow(WindowRows(start, end, us, fs, active, classify)[i], start, end, us, fs, active, classify)
    decreases end - start
  {
    if start <= end {
      WindowRowsSound(start, end - 1, us, fs, active, classify);
      DayRowsSound(end, us, fs, active, classify);
      var prev := WindowRows(start, end - 1, us, fs, active, classify);
      var day := DayRows(end, us, fs, active, classify);
      var all := WindowRows(start, end, us, fs, active, classify);
      assert all == prev + day;
      forall i | 0 <= i < |all|
        ensures SoundRow(all[i], start, end, us, fs, active, classify)
      {
        if i < |prev| {
          assert all[i] == prev[i];
          assert SoundRow(prev[i], start, end - 1, us, fs, active, classify);
        } else {
          assert all[i] == day[i - |prev|];
        }
      }
    }
  }

  /** Some row of `rows` has the key `k`. */
  predicate HasRowFor(rows: seq<StateRow>, k: Key) {
    exists i :: 0 <= i < |rows| && rows[i].KeyOf() == k
  }

  /** A (day, user) pair with the day in [start, end], on or after the
      user's first-seen date, has its row in the window. */
  lemma {:induction false} WindowRowComplete(start: Date, end: Date, us: seq<UserId>, fs: map<UserId, Date>, active: map<UserId, set<Date>>, classify: Classifier, k: Key)
    requires forall u :: u in us ==> u in fs
    requires start <= k.asOf <= end && k.userId in us && fs[k.userId] <= k.asOf
    ensures HasRowFor(WindowRows(start, end, us, fs, active, classify), k)
    decreases end - start
  {
    var prev := WindowRows(start, end - 1, us, fs, active, classify);
    var day := DayRows(end, us, fs, active, classify);
    var all := WindowRows(start, end, us, fs, active, classify);
    assert all == prev + day;
    if k.asOf == end {
      DayRowsSound(end, us, fs, active, classify);
      DayRowsComplete(end, us, fs, active, classify);
      var i :| 0 <= i < |day| && day[i].userId == k.userId;
      assert all[|prev| + i] == day[i];
    } else {
      WindowRowComplete(start, end - 1, us, fs, active, classify, k);
      var i :| 0 <= i < |prev| && prev[i].KeyOf() == k;
      assert all[i] == prev[i];
    }
  }

  /** Every such (day, user) pair has its row in the window. */
  lemma WindowRowsComplete(start: Date, end: Date, us: seq<UserId>, fs: map<UserId, Date>, active: map<UserId, set<Date>>, classify: Classifier)
    requires forall u :: u in us ==> u in fs
    ensures forall k: Key :: start <= k.asOf <= end && k.userId in us && fs[k.userId] <= k.asOf ==>
      HasRowFor(WindowRows(start, end, us, fs, active, classify), k)
  {
    forall k: Key | start <= k.asOf <= end && k.userId in us && fs[k.userId] <= k.asOf {
      WindowRowComplete(start, end, us, fs, active, classify, k);
    }
  }

  /** The window's rows are exactly the classified rows of the (day, user)
      pairs with the day in [start, end] and on or after the user's
      first-seen date. */
  lemma WindowRowsContent(start: Date, end: Date, us: seq<UserId>, fs: map<UserId, Date>, active: map<UserId, set<Date>>, classify: Classifier)
    requires forall u :: u in us ==> u in fs
    ensures forall i :: 0 <= i < |WindowRows(start, end, us, fs, active, classify)| ==>
      var r := WindowRows(start, end, us, fs, active, classify)[i];
      && start <= r.asOf <= end && r.userId in us && fs[r.userId] <= r.asOf
      && r == RowFor(r.asOf, r.userId, fs, active, classify)
    ensures forall k: Key :: start <= k.asOf <= end && k.userId in us && fs[k.userId] <= k.asOf ==>
      exists i :: (0 <= i < |WindowRows(start, end, us, fs, active, classify)| &&
        WindowRows(start, end, us, fs, active, classify)[i].KeyOf() == k)
  {
    WindowRowsSound(start, end, us, fs, active, classify);
    WindowRowsComplete(start, end, us, fs, active, classify);
  }

  /** Rows ordered by date stay ordered when a later day's rows follow them. */
  lemma AppendLaterDay(prev: seq<StateRow>, day: seq<StateRow>, d: Date)
    requires forall i, j :: 0 <= i < j < |prev| ==> prev[i].asOf <= prev[j].asOf
    requires forall i :: 0 <= i < |prev| ==> prev[i].asOf < d
    requires forall i :: 0 <= i < |day| ==> day[i].asOf == d
    ensures forall i, j :: 0 <= i < j < |prev + day| ==> (prev + day)[i].asOf <= (prev + day)[j].asOf
  {
  }

  /** Keys stay distinct when a later day's rows, with distinct users, follow. */
  lemma AppendDistinctDay(prev: seq<StateRow>, day: seq<StateRow>, d: Date)
    requires DistinctKeys(prev)
    requires forall i :: 0 <= i < |prev| ==> prev[i].asOf < d
    requires forall i :: 0 <= i < |day| ==> day[i].asOf == d
    requires forall i, j :: 0 <= i < j < |day| ==> day[i].userId != day[j].userId
    ensures DistinctKeys(prev + day)
  {
    var all := prev + day;
    forall i, j | 0 <= i < j < |all|
      ensures all[i].KeyOf() != all[j].KeyOf()
    {
      if j < |prev| {
        assert all[i] == prev[i] && all[j] == prev[j];
      } else if i < |prev| {
        assert all[i] == prev[i] && all[j] == day[j - |prev|];
      } else {
        assert all[i] == day[i - |prev|] && all[j] == day[j - |prev|];
      }
    }
  }

  /** Every row of the window falls on a day of the window. */
  lemma WindowRowsDates(start: Date, end: Date, us: seq<UserId>, fs: map<UserId, Date>, active: map<UserId, set<Date>>, classify: Classifier)
    requires forall u :: u in us ==> u in fs
    ensures forall i :: 0 <= i < |WindowRows(start, end, us, fs, active, classify)| ==>
      WindowRows(start, end, us, fs, active, classify)[i].asOf <= end
  {
    WindowRowsSound(start, end, us, fs, active, classify);
    forall i | 0 <= i < |WindowRows(start, end, us, fs, active, classify)|
      ensures WindowRows(start, end, us, fs, active, classify)[i].asOf <= end
    {
      assert SoundRow(WindowRows(start, end, us, fs, active, classify)[i], start, end, us, fs, active, classify);
    }
  }

  /** Every row of one day carries that day. */
  lemma DayRowsDates(asOf: Date, us: seq<UserId>, fs: map<UserId, Date>, active: map<UserId, set<Date>>, classify: Classifier)
    requires forall u :: u in us ==> u in fs
    ensures forall i :: 0 <= i < |DayRows(asOf, us, fs, active, classify)| ==>
      DayRows(asOf, us, fs, active, classify)[i].asOf == asOf
    ensures DistinctIds(us) ==> forall i, j :: 0 <= i < j < |DayRows(asOf, us, fs, active, classify)| ==>
      DayRows(asOf, us, fs, active, classify)[i].userId != DayRows(asOf, us, fs, active, classify)[j].userId
  {
    DayRowsSound(asOf, us, fs, active, classify);
    if DistinctIds(us) {
      DayRowsDistinct(asOf, us, fs, active, classify);
    }
  }

  /** The rows come day by day, and with distinct users no (day, user) key
      repeats, so the store's primary key accepts them. */
  lemma {:induction false} WindowRowsOrderedAndDistinct(start: Date, end: Date, us: seq<UserId>, fs: map<UserId, Date>, active: map<UserId, set<Date>>, classify: Classifier)
    requires forall u :: u in us ==> u in fs
    ensures forall i, j :: 0 <= i < j < |WindowRows(start, end, us, fs, active, classify)| ==>
      WindowRows(start, end, us, fs, active, classify)[i].asOf <= WindowRows(start, end, us, fs, active, classify)[j].asOf
    ensures DistinctIds(us) ==> DistinctKeys(WindowRows(start, end, us, fs, active, classify))
    decreases end - start
  {
    if start <= end {
      WindowRowsOrderedAndDistinct(start, end - 1, us, fs, active, classify);
      WindowRowsDates(start, end - 1, us, fs, active, classify);
      DayRowsDates(end, us, fs, active, classify);
      var prev := WindowRows(start, end - 1, us, fs, active, classify);
      var day := DayRows(end, us, fs, active, classify);
      AppendLaterDay(prev, day, end);
      if DistinctIds(us) {
        AppendDistinctDay(prev, day, end);
      }
    }
  }

  /** How many days of [start, end] fall on or after the first-seen date `f`. */
  function DaysFrom(f: Date, start: Date, end: Date): nat {
    var from := if f < start then start else f;
    if end < from then 0 else end - from + 1
  }

  /** The row count the source promises: for each user, one row per day of the
      window from their first-seen date on. */
  function ExpectedCount(us: seq<UserId>, fs: map<UserId, Date>, start: Date, end: Date): nat
    requires forall u :: u in us ==> u in fs
    decreases |us|
  {
    if us == [] then 0
    else ExpectedCount(us[..|us| - 1], fs, start, end) + DaysFrom(fs[us[|us| - 1]], start, end)
  }

  /** How many users of `us` are first seen on or before `d`. */
  function SeenBy(us: seq<UserId>, fs: map<UserId, Date>, d: Date): nat
    requires forall u :: u in us ==> u in fs
    decreases |us|
  {
    if us == [] then 0
    else SeenBy(us[..|us| - 1], fs, d) + (if fs[us[|us| - 1]] <= d then 1 else 0)
  }

  /** One day has one row per user seen by then. */
  lemma {:induction false} DayRowsCount(asOf: Date, us: seq<UserId>, fs: map<UserId, Date>, active: map<UserId, set<Date>>, classify: Classifier)
    requires forall u :: u in us ==> u in fs
    ensures |DayRows(asOf, us, fs, active, classify)| == SeenBy(us, fs, asOf)
    decreases |us|
  {
    if us != [] {
      assert forall v :: v in us[..|us| - 1] ==> v in us;
      DayRowsCount(asOf, us[..|us| - 1], fs, active, classify);
    }
  }

  /** Extending the window by its last day adds the users seen by that day. */
  lemma {:induction false} ExpectedCountStep(us: seq<UserId>, fs: map<UserId, Date>, start: Date, end: Date)
    requires forall u :: u in us ==> u in fs
    requires start <= end
    ensures ExpectedCount(us, fs, start, end) == ExpectedCount(us, fs, start, end - 1) + SeenBy(us, fs, end)
    decreases |us|
  {
    if us != [] {
      assert forall v :: v in us[..|us| - 1] ==> v in us;
      ExpectedCountStep(us[..|us| - 1], fs, start, end);
    }
  }

  /** An empty window expects no row. */
  lemma {:induction false} ExpectedCountEmpty(us: seq<UserId>, fs: map<UserId, Date>, start: Date, end: Date)
    requires forall u :: u in us ==> u in fs
    requires end < start
    ensures ExpectedCount(us, fs, start, end) == 0
    decreases |us|
  {
    if us != [] {
      assert forall v :: v in us[..|us| - 1] ==> v in us;
      ExpectedCountEmpty(us[..|us| - 1], fs, start, end);
    }
  }

  /** The first pass emits, per user, one row for each day of the window on
      or after the user's first-seen date. */
  lemma {:induction false} WindowRowsCount(start: Date, end: Date, us: seq<UserId>, fs: map<UserId, Date>, active: map<UserId, set<Date>>, classify: Classifier)
    requires forall u :: u in us ==> u in fs
    ensures |WindowRows(start, end, us, fs, active, classify)| == ExpectedCount(us, fs, start, end)
    decreases end - start
  {
    if end < start {
      ExpectedCountEmpty(us, fs, start, end);
    } else {
      WindowRowsCount(start, end - 1, us, fs, active, classify);
      DayRowsCount(end, us, fs, active, classify);
      ExpectedCountStep(us, fs, start, end);
    }
  }
}
