/** The window recompute of `user_state_daily`: `UserStateService.compute`
    (src/backend/services/user_state_service.py) over the three repositories,
    and the two front ends that run the same steps on their own connection,
    `compute` (src/daulingo/compute_user_state_daily.py, weekend-folding
    classifier) and `main` (scripts/2_compute_user_state_daily.py, plain
    classifier, window ending on the latest activity date). */
module Service {
  import opened Dates
  import opened Tables
  import opened Wrappers
  import Classifier
  import Window
  import LastActive
  import StateTable
  import FactActivity
  import DimUser

  /** Days of activity read before the window start (`timedelta(days=30)`). */
  const Lookback: int := 30

  /** Days the script's window reaches back from its end (`timedelta(days=365)`). */
  const ScriptWindowDays: int := 365

  /** `window_start > window_end` raises `ValueError`. */
  datatype ComputeError = InvalidRange

  /** The script's `compute_window` finds no activity and exits. */
  datatype ScriptError = NoActivity

  // ----------------------------------------------------------------------------
  // What the recompute stores

  /** `users_on_or_before(window_end)`: the users first seen by `end`. */
  function Eligible(t: DimUserTable, end: Date): DimUserTable {
    map u | u in t && t[u] <= end :: t[u]
  }

  /** `active_dates_by_user` for the users of `fs`. */
  function ActiveFor(evs: seq<FactActivity.Event>, fs: DimUserTable, lo: Date, hi: Date): map<UserId, set<Date>> {
    map u | u in fs :: FactActivity.ActiveDays(evs, u, lo, hi)
  }

  /** `last_active_before_start` for the users of `fs`. */
  function SeedFor(evs: seq<FactActivity.Event>, fs: DimUserTable, start: Date): map<UserId, Option<Date>> {
    map u | u in fs :: FactActivity.LastBefore(evs, u, start)
  }

  /** The active dates from `start` on. */
  function ActiveSince(act: set<Date>, start: Date): set<Date> {
    set x | x in act && start <= x
  }

  /** The keys a recompute of [start, end] fills: every day of the window for
      every user first seen by then. */
  function WindowKeys(start: Date, end: Date, fs: DimUserTable): set<Key> {
    set d, u | start <= d <= end && u in fs && fs[u] <= d :: Key(d, u)
  }

  /** The record stored for `u` on `d`: the classifier's state, and as
      last-active date the latest active date of `u` in
      [max(start, first_seen), d], or the last activity before the window when
      there is none. */
  function ExpectedRecord(d: Date, u: UserId, start: Date, fs: DimUserTable, active: map<UserId, set<Date>>,
                          seed: map<UserId, Option<Date>>, classify: Window.Classifier): StateRecord
    requires u in fs
  {
    StateRecord(classify(d, fs[u], Window.ActiveOf(active, u)),
                LastActive.LatestIn(ActiveSince(Window.ActiveOf(active, u), start), fs[u], d).OrElse(LastActive.SeedOf(seed, u)))
  }

  /** The window's rows as a table, whatever order the users come in. */
  function ExpectedTable(start: Date, end: Date, fs: DimUserTable, active: map<UserId, set<Date>>,
                         seed: map<UserId, Option<Date>>, classify: Window.Classifier): map<Key, StateRecord> {
    map k | k in WindowKeys(start, end, fs) && k.userId in fs :: ExpectedRecord(k.asOf, k.userId, start, fs, active, seed, classify)
  }

  /** The window's rows computed from the user registry and the activity log,
      reading activity from `start - Lookback` to `end`. */
  function ExpectedFromStores(firstSeen: DimUserTable, evs: seq<FactActivity.Event>, start: Date, end: Date,
                              classify: Window.Classifier): map<Key, StateRecord> {
    var fs := Eligible(firstSeen, end);
    ExpectedTable(start, end, fs, ActiveFor(evs, fs, start - Lookback, end), SeedFor(evs, fs, start), classify)
  }

  /** The table `after` is `before` with [start, end] recomputed from the
      stores: untouched when nobody is first seen by `end`, otherwise the
      window's rows replaced by the expected ones and every other row kept. */
  predicate RecomputedFrom(before: map<Key, StateRecord>, after: map<Key, StateRecord>, firstSeen: DimUserTable,
                           evs: seq<FactActivity.Event>, start: Date, end: Date, classify: Window.Classifier) {
    if Eligible(firstSeen, end) == map[] then after == before
    else after == StateTable.Outside(before, start, end) + ExpectedFromStores(firstSeen, evs, start, end, classify)
  }

  // ----------------------------------------------------------------------------
  // The two passes produce the expected rows

  /** On [first_seen, d], the active row dates of `u` among the first pass's
      rows are the user's active dates from the window start on. */
  lemma WindowActiveAgree(start: Date, end: Date, us: seq<UserId>, fs: DimUserTable, active: map<UserId, set<Date>>,
                          classify: Window.Classifier, u: UserId, d: Date)
    requires forall v :: v in us ==> v in fs
    requires u in us && fs[u] <= d <= end
    ensures forall x :: fs[u] <= x <= d ==>
      (x in LastActive.UserActiveDates(Window.WindowRows(start, end, us, fs, active, classify), u, active)
       <==> x in ActiveSince(Window.ActiveOf(active, u), start))
  {
    var rows := Window.WindowRows(start, end, us, fs, active, classify);
    Window.WindowRowsContent(start, end, us, fs, active, classify);
    forall x | fs[u] <= x <= d
      ensures x in LastActive.UserActiveDates(rows, u, active) <==> x in ActiveSince(Window.ActiveOf(active, u), start)
    {
      if x in ActiveSince(Window.ActiveOf(active, u), start) {
        var k := Key(x, u);
        assert start <= k.asOf <= end && k.userId in us && fs[k.userId] <= k.asOf;
        var i :| 0 <= i < |rows| && rows[i].KeyOf() == k;
        assert rows[i].userId == u && rows[i].asOf == x;
      }
    }
  }

  /** Each filled row of the first pass is stored under a key of the window
      with the expected record. */
  lemma RecomputedRow(start: Date, end: Date, us: seq<UserId>, fs: DimUserTable, active: map<UserId, set<Date>>,
                      seed: map<UserId, Option<Date>>, classify: Window.Classifier, j: int)
    requires forall u :: u in us <==> u in fs
    requires 0 <= j < |Window.WindowRows(start, end, us, fs, active, classify)|
    ensures LastActive.AllKnown(Window.WindowRows(start, end, us, fs, active, classify), fs)
    ensures
      var rows := Window.WindowRows(start, end, us, fs, active, classify);
      var f := LastActive.Filled(rows, fs, active, seed)[j];
      && f.KeyOf() == rows[j].KeyOf()
      && start <= f.asOf <= end
      && f.KeyOf() in ExpectedTable(start, end, fs, active, seed, classify)
      && ExpectedTable(start, end, fs, active, seed, classify)[f.KeyOf()] == StateRecord(f.state, f.lastActive)
  {
    var rows := Window.WindowRows(start, end, us, fs, active, classify);
    Window.WindowRowsContent(start, end, us, fs, active, classify);
    assert LastActive.AllKnown(rows, fs);
    var u := rows[j].userId;
    var d := rows[j].asOf;
    assert Key(d, u) in WindowKeys(start, end, fs);
    WindowActiveAgree(start, end, us, fs, active, classify, u, d);
    LastActive.LatestInAgree(LastActive.UserActiveDates(rows, u, active), ActiveSince(Window.ActiveOf(active, u), start), fs[u], d);
  }

  /** Every expected key is the key of a row of the first pass. */
  lemma ExpectedKeyHasRow(start: Date, end: Date, us: seq<UserId>, fs: DimUserTable, active: map<UserId, set<Date>>,
                          seed: map<UserId, Option<Date>>, classify: Window.Classifier, k: Key)
    requires forall u :: u in us <==> u in fs
    requires k in ExpectedTable(start, end, fs, active, seed, classify)
    ensures exists i :: 0 <= i < |Window.WindowRows(start, end, us, fs, active, classify)| && Window.WindowRows(start, end, us, fs, active, classify)[i].KeyOf() == k
  {
    Window.WindowRowsContent(start, end, us, fs, active, classify);
    var d, u :| start <= d <= end && u in fs && fs[u] <= d && Key(d, u) == k;
    assert start <= k.asOf <= end && k.userId in us && fs[k.userId] <= k.asOf;
  }

  /** The first pass followed by the fill yields, with the users of `fs` in
      any order, rows with distinct keys inside the window whose table is the
      expected table, one row per expected key. */
  lemma RecomputedTable(start: Date, end: Date, us: seq<UserId>, fs: DimUserTable, active: map<UserId, set<Date>>,
                        seed: map<UserId, Option<Date>>, classify: Window.Classifier)
    requires DistinctIds(us)
    requires forall u :: u in us <==> u in fs
    ensures LastActive.AllKnown(Window.WindowRows(start, end, us, fs, active, classify), fs)
    ensures
      var rows := LastActive.Filled(Window.WindowRows(start, end, us, fs, active, classify), fs, active, seed);
      && DistinctKeys(rows)
      && StateTable.AllInWindow(rows, start, end)
      && AsTable(rows) == ExpectedTable(start, end, fs, active, seed, classify)
      && |rows| == |ExpectedTable(start, end, fs, active, seed, classify)|
  {
    var rows := Window.WindowRows(start, end, us, fs, active, classify);
    var expected := ExpectedTable(start, end, fs, active, seed, classify);
    Window.WindowRowsOrderedAndDistinct(start, end, us, fs, active, classify);
    if |rows| > 0 {
      RecomputedRow(start, end, us, fs, active, seed, classify, 0);
    } else {
      Window.WindowRowsContent(start, end, us, fs, active, classify);
    }
    var filled := LastActive.Filled(rows, fs, active, seed);
    forall j | 0 <= j < |rows|
      ensures filled[j].KeyOf() == rows[j].KeyOf() && start <= filled[j].asOf <= end
      ensures filled[j].KeyOf() in expected && expected[filled[j].KeyOf()] == StateRecord(filled[j].state, filled[j].lastActive)
    {
      RecomputedRow(start, end, us, fs, active, seed, classify, j);
    }
    forall k | k in expected
      ensures exists i :: 0 <= i < |filled| && filled[i].KeyOf() == k
    {
      ExpectedKeyHasRow(start, end, us, fs, active, seed, classify, k);
      var i :| 0 <= i < |rows| && rows[i].KeyOf() == k;
      assert filled[i].KeyOf() == k;
    }
    TableOfRows(filled, expected);
  }

  /** Rows with distinct keys, each stored in `e` under its key, covering
      every key of `e`, make up `e`. */
  lemma TableOfRows(rows: seq<StateRow>, e: map<Key, StateRecord>)
    requires DistinctKeys(rows)
    requires forall j :: 0 <= j < |rows| ==> rows[j].KeyOf() in e && e[rows[j].KeyOf()] == StateRecord(rows[j].state, rows[j].lastActive)
    requires forall k :: k in e ==> exists i :: 0 <= i < |rows| && rows[i].KeyOf() == k
    ensures AsTable(rows) == e && |rows| == |e|
  {
    AsTableKeys(rows);
    AsTableRows(rows);
    forall k | k in AsTable(rows)
      ensures k in e && AsTable(rows)[k] == e[k]
    {
      var j :| 0 <= j < |rows| && rows[j].KeyOf() == k;
    }
    assert AsTable(rows) == e;
  }

  /** With every seed before the window, the filled rows can be inserted once
      the window is cleared: their keys are new and each meets the check
      constraint. */
  lemma RecomputedRowsInsertable(t: map<Key, StateRecord>, start: Date, end: Date, us: seq<UserId>, fs: DimUserTable,
                                 active: map<UserId, set<Date>>, seed: map<UserId, Option<Date>>, classify: Window.Classifier)
    requires DistinctIds(us)
    requires forall u :: u in us <==> u in fs
    requires forall u :: LastActive.SeedOf(seed, u).None? || LastActive.SeedOf(seed, u).value < start
    ensures LastActive.AllKnown(Window.WindowRows(start, end, us, fs, active, classify), fs)
    ensures StateTable.Insertable(StateTable.Outside(t, start, end),
                                  LastActive.Filled(Window.WindowRows(start, end, us, fs, active, classify), fs, active, seed))
  {
    var rows := Window.WindowRows(start, end, us, fs, active, classify);
    RecomputedTable(start, end, us, fs, active, seed, classify);
    Window.WindowRowsContent(start, end, us, fs, active, classify);
    assert LastActive.SeedsBefore(rows, seed);
    LastActive.FilledMeetsCheck(rows, fs, active, seed);
  }

  /** The seeds the activity log gives all lie before the window. */
  lemma SeedsLieBeforeStart(evs: seq<FactActivity.Event>, fs: DimUserTable, start: Date)
    ensures forall u :: LastActive.SeedOf(SeedFor(evs, fs, start), u).None? || LastActive.SeedOf(SeedFor(evs, fs, start), u).value < start
  {
    forall u | u in fs
      ensures LastActive.SeedOf(SeedFor(evs, fs, start), u).None? || LastActive.SeedOf(SeedFor(evs, fs, start), u).value < start
    {
      FactActivity.LastBeforeIsLatest(evs, u, start);
    }
  }

  /** Recomputing a window twice in a row leaves the table as the first
      recompute left it. */
  lemma RecomputeIsIdempotent(t: map<Key, StateRecord>, firstSeen: DimUserTable, evs: seq<FactActivity.Event>,
                              start: Date, end: Date, classify: Window.Classifier)
    ensures
      var e := ExpectedFromStores(firstSeen, evs, start, end, classify);
      StateTable.Outside(StateTable.Outside(t, start, end) + e, start, end) + e == StateTable.Outside(t, start, end) + e
  {
    var e := ExpectedFromStores(firstSeen, evs, start, end, classify);
    var once := StateTable.Outside(t, start, end) + e;
    forall k | k in e
      ensures start <= k.asOf <= end
    {
      var fs := Eligible(firstSeen, end);
      var d, u :| start <= d <= end && u in fs && fs[u] <= d && Key(d, u) == k;
    }
    assert StateTable.Outside(once, start, end) == StateTable.Outside(t, start, end);
  }

  // ----------------------------------------------------------------------------
  // The service

  class UserStateService {
    const dimUsers: DimUser.DimUserRepo
    const factActivity: FactActivity.FactActivityRepo
    const userStateDaily: StateTable.UserStateDailyRepo

    constructor (dimUsers: DimUser.DimUserRepo, factActivity: FactActivity.FactActivityRepo, userStateDaily: StateTable.UserStateDailyRepo)
      ensures this.dimUsers == dimUsers && this.factActivity == factActivity && this.userStateDaily == userStateDaily
    {
      this.dimUsers := dimUsers;
      this.factActivity := factActivity;
      this.userStateDaily := userStateDaily;
    }

    /** `compute(window_start, window_end)`: an empty window is refused before
        any repository is used; with no user first seen by the window end
        nothing changes and 0 is returned; otherwise the window's rows are
        deleted and the recomputed rows inserted, and their number returned:
        one per eligible user and day from the user's first-seen date on.
        `classify` is `backend.services.classifier.classify_state`, which is
        not part of this model; `rowcountKnown` is whether the driver reports
        the number of deleted rows. */
    method Compute(windowStart: Date, windowEnd: Date, classify: Window.Classifier, rowcountKnown: bool)
      returns (r: Result<nat, ComputeError>, ghost userIds: seq<UserId>)
      modifies userStateDaily
      ensures windowStart > windowEnd ==> r == Failure(InvalidRange) && userStateDaily.table == old(userStateDaily.table)
      ensures windowStart <= windowEnd ==>
        RecomputedFrom(old(userStateDaily.table), userStateDaily.table, dimUsers.firstSeen, factActivity.events, windowStart, windowEnd, classify)
      ensures windowStart <= windowEnd && Eligible(dimUsers.firstSeen, windowEnd) == map[] ==> r == Success(0)
      ensures windowStart <= windowEnd && Eligible(dimUsers.firstSeen, windowEnd) != map[] ==>
        && r == Success(|ExpectedFromStores(dimUsers.firstSeen, factActivity.events, windowStart, windowEnd, classify)|)
        && DistinctIds(userIds)
        && (forall u :: u in userIds <==> u in Eligible(dimUsers.firstSeen, windowEnd))
        && r.value == Window.ExpectedCount(userIds, Eligible(dimUsers.firstSeen, windowEnd), windowStart, windowEnd)
      ensures old(userStateDaily.Valid()) ==> userStateDaily.Valid()
    {
      userIds := [];
      if windowStart > windowEnd {
        return Failure(InvalidRange), userIds;
      }
      var readFrom := windowStart - Lookback;
      var fs := dimUsers.UsersOnOrBefore(windowEnd);
      assert fs == Eligible(dimUsers.firstSeen, windowEnd);
      if fs == map[] {
        return Success(0), userIds;
      }
      var us := KeysOf(fs);
      userIds := us;
      var active := factActivity.ActiveDatesByUser(readFrom, windowEnd, us);
      var seed := factActivity.LastActiveBeforeStart(windowStart, us);
      ghost var expected := ExpectedTable(windowStart, windowEnd, fs, active, seed, classify);
      StoresGiveExpected(dimUsers.firstSeen, factActivity.events, windowStart, windowEnd, classify, fs, us, active, seed);
      var stored := TwoPasses(windowStart, windowEnd, us, fs, active, seed, classify);
      RecomputedRowsInsertable(userStateDaily.table, windowStart, windowEnd, us, fs, active, seed, classify);

      // Clean the window, then insert.
      var deleted := userStateDaily.DeleteRange(windowStart, windowEnd, rowcountKnown);
      var inserted;
      ghost var batches;
      inserted, batches := userStateDaily.BulkInsert(stored, StateTable.DefaultChunkSize);
      r := Success(inserted.value);
    }
  }

  /** The loaders' results are the registry's and the log's view of the
      eligible users, and the recompute's expected table is the one the
      stores determine. */
  lemma StoresGiveExpected(firstSeen: DimUserTable, evs: seq<FactActivity.Event>, start: Date, end: Date, classify: Window.Classifier,
                           fs: DimUserTable, us: seq<UserId>, active: map<UserId, set<Date>>, seed: map<UserId, Option<Date>>)
    requires fs == Eligible(firstSeen, end)
    requires forall u :: u in us <==> u in fs
    requires forall u :: u in active <==> u in us
    requires forall u :: u in active ==> active[u] == FactActivity.ActiveDays(evs, u, start - Lookback, end)
    requires forall u :: u in seed <==> u in us
    requires forall u :: u in seed ==> seed[u] == FactActivity.LastBefore(evs, u, start)
    ensures active == ActiveFor(evs, fs, start - Lookback, end) && seed == SeedFor(evs, fs, start)
    ensures ExpectedTable(start, end, fs, active, seed, classify) == ExpectedFromStores(firstSeen, evs, start, end, classify)
    ensures forall u :: LastActive.SeedOf(seed, u).None? || LastActive.SeedOf(seed, u).value < start
  {
    assert active == ActiveFor(evs, fs, start - Lookback, end);
    assert seed == SeedFor(evs, fs, start);
    SeedsLieBeforeStart(evs, fs, start);
  }

  /** The two passes: the rows of every day and eligible user, then the fill
      of their last-active dates in place. The result is the expected table's
      rows, one per key, ready to insert into the cleared window. */
  method TwoPasses(start: Date, end: Date, us: seq<UserId>, fs: DimUserTable, active: map<UserId, set<Date>>,
                   seed: map<UserId, Option<Date>>, classify: Window.Classifier)
    returns (stored: seq<StateRow>)
    requires DistinctIds(us)
    requires forall u :: u in us <==> u in fs
    ensures AsTable(stored) == ExpectedTable(start, end, fs, active, seed, classify)
    ensures |stored| == |ExpectedTable(start, end, fs, active, seed, classify)| == Window.ExpectedCount(us, fs, start, end)
    ensures LastActive.AllKnown(Window.WindowRows(start, end, us, fs, active, classify), fs)
    ensures stored == LastActive.Filled(Window.WindowRows(start, end, us, fs, active, classify), fs, active, seed)
  {
    var rows := Window.FirstPass(start, end, us, fs, active, classify);
    RecomputedTable(start, end, us, fs, active, seed, classify);
    Window.WindowRowsCount(start, end, us, fs, active, classify);
    var a := new StateRow[|rows|](i requires 0 <= i < |rows| => rows[i]);
    assert a[..] == rows;
    var filled := LastActive.FillLastActive(a, fs, active, seed);
    stored := a[..];
  }

  // ----------------------------------------------------------------------------
  // The daulingo and script front ends

  /** The weekend-folding classifier of src/daulingo/classifier.py. */
  function WeekendFolding(): Window.Classifier {
    (asOf: Date, firstSeen: Date, active: set<Date>) => Classifier.StateOn(asOf, firstSeen, active, true)
  }

  /** The plain classifier of scripts/2_compute_user_state_daily.py. */
  function Plain(): Window.Classifier {
    (asOf: Date, firstSeen: Date, active: set<Date>) => Classifier.StateOn(asOf, firstSeen, active, false)
  }

  /** The engine only classifies a user on or after their first-seen date, so
      neither source classifier ever raises inside it: each row's state is
      what `classify_state` returns for it. */
  lemma EngineNeverRaises(start: Date, end: Date, us: seq<UserId>, fs: DimUserTable, active: map<UserId, set<Date>>, weekendFold: bool)
    requires forall u :: u in us ==> u in fs
    ensures
      var classify := if weekendFold then WeekendFolding() else Plain();
      var rows := Window.WindowRows(start, end, us, fs, active, classify);
      forall i :: 0 <= i < |rows| ==>
        rows[i].userId in fs &&
        Classifier.Classify(rows[i].asOf, fs[rows[i].userId], Window.ActiveOf(active, rows[i].userId), weekendFold) == Success(rows[i].state)
  {
    var classify := if weekendFold then WeekendFolding() else Plain();
    Window.WindowRowsContent(start, end, us, fs, active, classify);
  }

  /** The recompute's steps on the tables behind one connection, as the
      daulingo and script front ends run them without the service object. */
  method ComputeOn(dim: DimUser.DimUserRepo, facts: FactActivity.FactActivityRepo, store: StateTable.UserStateDailyRepo,
                   windowStart: Date, windowEnd: Date, classify: Window.Classifier, rowcountKnown: bool)
    returns (r: Result<nat, ComputeError>)
    modifies store
    ensures windowStart > windowEnd ==> r == Failure(InvalidRange) && store.table == old(store.table)
    ensures windowStart <= windowEnd ==> r.Success? && RecomputedFrom(old(store.table), store.table, dim.firstSeen, facts.events, windowStart, windowEnd, classify)
    ensures old(store.Valid()) ==> store.Valid()
  {
    var service := new UserStateService(dim, facts, store);
    ghost var us;
    r, us := service.Compute(windowStart, windowEnd, classify, rowcountKnown);
  }

  /** A window that some user is first seen by has at least one row: that
      user's row on the window's last day. */
  lemma NonEmptyWindowHasRows(firstSeen: DimUserTable, evs: seq<FactActivity.Event>, start: Date, end: Date, classify: Window.Classifier)
    requires start <= end && Eligible(firstSeen, end) != map[]
    ensures |ExpectedFromStores(firstSeen, evs, start, end, classify)| > 0
  {
    var fs := Eligible(firstSeen, end);
    assert fs.Keys != {};
    var u :| u in fs.Keys;
    assert Key(end, u) in WindowKeys(start, end, fs);
    assert Key(end, u) in ExpectedFromStores(firstSeen, evs, start, end, classify);
  }

  /** `compute(conn, window_start, window_end)` of src/daulingo: the same steps
      with the weekend-folding classifier, except that it returns 0 only when
      there is nobody to compute and otherwise falls off its end (`None`). */
  method ComputeDaily(dim: DimUser.DimUserRepo, facts: FactActivity.FactActivityRepo, store: StateTable.UserStateDailyRepo,
                      windowStart: Date, windowEnd: Date, rowcountKnown: bool)
    returns (r: Result<Option<nat>, ComputeError>)
    modifies store
    ensures windowStart > windowEnd ==> r == Failure(InvalidRange) && store.table == old(store.table)
    ensures windowStart <= windowEnd ==>
      RecomputedFrom(old(store.table), store.table, dim.firstSeen, facts.events, windowStart, windowEnd, WeekendFolding())
    ensures windowStart <= windowEnd ==> r == if Eligible(dim.firstSeen, windowEnd) == map[] then Success(Some(0)) else Success(None)
    ensures old(store.Valid()) ==> store.Valid()
  {
    var n := ComputeOn(dim, facts, store, windowStart, windowEnd, WeekendFolding(), rowcountKnown);
    if n.Failure? {
      return Failure(n.error);
    }
    if Eligible(dim.firstSeen, windowEnd) == map[] {
      return Success(Some(0));
    }
    r := Success(None);
  }

  /** `compute_window`: the script's window is the year ending on the date of
      the latest activity, read from 30 days before its start; no activity at
      all ends the script. The window holds 366 days. */
  function ScriptWindow(latest: Option<Date>): (w: Result<(Date, Date, Date), ScriptError>)
    ensures latest.None? <==> w.Failure?
    ensures w.Success? ==>
      var (start, end, readFrom) := w.value;
      && end == latest.value
      && end - start + 1 == ScriptWindowDays + 1
      && readFrom == start - Lookback
  {
    match latest
    case None => Failure(NoActivity)
    case Some(end) => Success((end - ScriptWindowDays, end, end - ScriptWindowDays - Lookback))
  }

  /** `main` of scripts/2_compute_user_state_daily.py: recompute the year up to
      the latest activity date with the plain classifier, in one transaction;
      it returns 0 whether or not there was anybody to compute. */
  method ScriptMain(dim: DimUser.DimUserRepo, facts: FactActivity.FactActivityRepo, store: StateTable.UserStateDailyRepo, rowcountKnown: bool)
    returns (r: Result<int, ScriptError>, ghost windowStart: Date, ghost windowEnd: Date)
    modifies store
    ensures facts.events == [] <==> r == Failure(NoActivity)
    ensures facts.events == [] ==> store.table == old(store.table)
    ensures facts.events != [] ==> r == Success(0) && FactActivity.LatestDay(facts.events) == Some(windowEnd)
    ensures facts.events != [] ==> windowStart == windowEnd - ScriptWindowDays
    ensures facts.events != [] ==> RecomputedFrom(old(store.table), store.table, dim.firstSeen, facts.events, windowStart, windowEnd, Plain())
    ensures old(store.Valid()) ==> store.Valid()
  {
    FactActivity.LatestDayIsMax(facts.events);
    var w := ScriptWindow(FactActivity.LatestDay(facts.events));
    if w.Failure? {
      return Failure(w.error), 0, 0;
    }
    windowStart, windowEnd := w.value.0, w.value.1;
    RecomputeYear(dim, facts, store, w.value.0, w.value.1, rowcountKnown);
    r := Success(0);
  }

  /** The script's one transaction: the year ending on `windowEnd`
      recomputed with the plain classifier. */
  method RecomputeYear(dim: DimUser.DimUserRepo, facts: FactActivity.FactActivityRepo, store: StateTable.UserStateDailyRepo,
                       windowStart: Date, windowEnd: Date, rowcountKnown: bool)
    requires windowStart == windowEnd - ScriptWindowDays
    modifies store
    ensures RecomputedFrom(old(store.table), store.table, dim.firstSeen, facts.events, windowStart, windowEnd, Plain())
    ensures old(store.Valid()) ==> store.Valid()
  {
    var n := ComputeOn(dim, facts, store, windowStart, windowEnd, Plain(), rowcountKnown);
  }
}
