/** The second pass of the window recompute, `fill_last_active_dates_inplace`
    (src/backend/utils.py, src/daulingo/compute_user_state_daily.py,
    scripts/2_compute_user_state_daily.py): rows are grouped per user, each
    group is sorted by date, and a rolling pointer seeded with the user's last
    activity before the window is written into each row's last-active date. */
module LastActive {
  import opened Dates
  import opened Tables
  import opened Wrappers
  import Window

  /** `users_first_seen[uid]` raises `KeyError` for a row of an unknown user. */
  datatype FillError = MissingUser(userId: UserId)

  /** `last_active_before_start.get(uid)`. */
  function SeedOf(seed: map<UserId, Option<Date>>, u: UserId): Option<Date> {
    if u in seed then seed[u] else None
  }

  /** The latest date of `s` in [lo, d], scanning back from `d`: the search the
      rolling pointer saves. */
  function LatestIn(s: set<Date>, lo: Date, d: Date): Option<Date>
    decreases d - lo
  {
    if d < lo then None
    else if d in s then Some(d)
    else LatestIn(s, lo, d - 1)
  }

  /** `LatestIn` finds nothing exactly when no date of `s` lies in [lo, d], and
      otherwise a date of `s` in [lo, d] that no later one in the range follows. */
  lemma {:induction false} LatestInIsLatest(s: set<Date>, lo: Date, d: Date)
    ensures LatestIn(s, lo, d).None? <==> forall x :: lo <= x <= d ==> x !in s
    ensures LatestIn(s, lo, d).Some? ==>
      var m := LatestIn(s, lo, d).value;
      lo <= m <= d && m in s && forall x :: m < x <= d ==> x !in s
    decreases d - lo
  {
    if lo <= d && d !in s {
      LatestInIsLatest(s, lo, d - 1);
    }
  }

  /** Two sets that agree on [lo, d] have the same latest date there. */
  lemma {:induction false} LatestInAgree(s1: set<Date>, s2: set<Date>, lo: Date, d: Date)
    requires forall x :: lo <= x <= d ==> (x in s1 <==> x in s2)
    ensures LatestIn(s1, lo, d) == LatestIn(s2, lo, d)
    decreases d - lo
  {
    if lo <= d && d !in s1 {
      LatestInAgree(s1, s2, lo, d - 1);
    }
  }

  /** With no date of `s` in (m, d], looking back from `d` finds what looking
      back from `m` finds. */
  lemma {:induction false} LatestInGap(s: set<Date>, lo: Date, m: Date, d: Date)
    requires m <= d
    requires forall x :: m < x <= d ==> x !in s
    ensures LatestIn(s, lo, d) == LatestIn(s, lo, m)
    decreases d - m
  {
    if m < d && lo <= d {
      LatestInGap(s, lo, m, d - 1);
    }
  }

  /** The rolling pointer after walking the dates `ds` in order: dates before
      `fs` are skipped, an active date becomes the pointer, and the pointer
      starts at `seed`. */
  function Roll(ds: seq<Date>, fs: Date, act: set<Date>, seed: Option<Date>): Option<Date>
    decreases |ds|
  {
    if ds == [] then seed
    else
      var d := ds[|ds| - 1];
      var prev := Roll(ds[..|ds| - 1], fs, act, seed);
      if d < fs then prev else if d in act then Some(d) else prev
  }

  predicate SortedDates(ds: seq<Date>) {
    forall i, j :: 0 <= i < j < |ds| ==> ds[i] <= ds[j]
  }

  /** The active dates among `ds`. */
  function ActiveAmong(ds: seq<Date>, act: set<Date>): set<Date> {
    set x | x in ds && x in act
  }

  /** One more date adds it to the active dates when it is active. */
  lemma ActiveAmongSnoc(init: seq<Date>, d: Date, act: set<Date>)
    ensures ActiveAmong(init + [d], act) == ActiveAmong(init, act) + (if d in act then {d} else {})
  {
    var ds := init + [d];
    forall x | x in ds
      ensures x in init || x == d
    {
      var p :| 0 <= p < |ds| && ds[p] == x;
      if p < |init| {
        assert init[p] == x;
      }
    }
    assert forall x :: x in init ==> x in ds;
  }

  /** Over dates in ascending order, the pointer is the latest active date in
      [fs, last date], or the seed when there is none. */
  lemma {:induction false} RollIsLatest(ds: seq<Date>, fs: Date, act: set<Date>, seed: Option<Date>)
    requires ds != [] && SortedDates(ds)
    ensures Roll(ds, fs, act, seed) == LatestIn(ActiveAmong(ds, act), fs, ds[|ds| - 1]).OrElse(seed)
    decreases |ds|
  {
    var d := ds[|ds| - 1];
    var init := ds[..|ds| - 1];
    assert ds == init + [d];
    if init == [] {
      RollSingle(d, fs, act, seed);
    } else {
      ActiveAmongSnoc(init, d, act);
      var m := init[|init| - 1];
      assert SortedDates(init);
      RollIsLatest(init, fs, act, seed);
      forall x | x in init
        ensures x <= m
      {
        var p :| 0 <= p < |init| && init[p] == x;
        assert ds[p] <= ds[|init| - 1];
      }
      RollStep(init, d, m, fs, act, seed);
    }
  }

  /** The base case of `RollIsLatest`: a single date. */
  lemma RollSingle(d: Date, fs: Date, act: set<Date>, seed: Option<Date>)
    ensures Roll([d], fs, act, seed) == LatestIn(ActiveAmong([d], act), fs, d).OrElse(seed)
  {
    assert [d][..0] == [];
    if d in act {
      assert ActiveAmong([d], act) == {d};
    } else {
      assert ActiveAmong([d], act) == {};
      LatestInIsLatest({}, fs, d);
    }
  }

  /** The inductive step of `RollIsLatest`: `d` follows dates all at most `m`. */
  lemma RollStep(init: seq<Date>, d: Date, m: Date, fs: Date, act: set<Date>, seed: Option<Date>)
    requires m <= d
    requires forall x :: x in init ==> x <= m
    requires init != [] && init[|init| - 1] == m
    requires Roll(init, fs, act, seed) == LatestIn(ActiveAmong(init, act), fs, m).OrElse(seed)
    requires ActiveAmong(init + [d], act) == ActiveAmong(init, act) + (if d in act then {d} else {})
    ensures Roll(init + [d], fs, act, seed) == LatestIn(ActiveAmong(init + [d], act), fs, d).OrElse(seed)
  {
    var ds := init + [d];
    assert ds[..|ds| - 1] == init;
    var s0 := ActiveAmong(init, act);
    var prev := Roll(init, fs, act, seed);
    assert Roll(ds, fs, act, seed) == if d < fs then prev else if d in act then Some(d) else prev;
    if d < fs {
      LatestInIsLatest(s0, fs, m);
    } else if d !in act {
      assert ActiveAmong(ds, act) == s0;
      assert forall x :: x in s0 ==> x in init;
      LatestInGap(s0, fs, m, d);
    }
  }

  /** The date of row `j`, or 0 outside the rows. */
  function DateAt(rows: seq<StateRow>, j: nat): Date {
    if j < |rows| then rows[j].asOf else 0
  }

  /** The dates of the rows `idx` points at, in that order. */
  function DatesOf(idx: seq<nat>, rows: seq<StateRow>): seq<Date> {
    seq(|idx|, p requires 0 <= p < |idx| => DateAt(rows, idx[p]))
  }

  /** The indices in `idx` are in ascending order of their rows' dates. */
  predicate SortedBy(idx: seq<nat>, rows: seq<StateRow>) {
    forall p, q :: 0 <= p < q < |idx| ==> DateAt(rows, idx[p]) <= DateAt(rows, idx[q])
  }

  /** No index occurs twice. */
  predicate DistinctIndices(idx: seq<nat>) {
    forall p, q :: 0 <= p < q < |idx| ==> idx[p] != idx[q]
  }

  /** Inserting `j` after every entry of `s` dated no later than it. */
  function InsertByDate(j: nat, s: seq<nat>, rows: seq<StateRow>): seq<nat>
    decreases |s|
  {
    if s == [] then [j]
    else if DateAt(rows, j) < DateAt(rows, s[0]) then [j] + s
    else [s[0]] + InsertByDate(j, s[1..], rows)
  }

  /** `user_rows.sort(key=lambda r: r["as_of_date"])` on a group's indices: a
      stable insertion sort by date. */
  function SortByDate(s: seq<nat>, rows: seq<StateRow>): seq<nat>
    decreases |s|
  {
    if s == [] then []
    else InsertByDate(s[|s| - 1], SortByDate(s[..|s| - 1], rows), rows)
  }

  /** Inserting adds exactly `j`. */
  lemma {:induction false} InsertByDateElems(j: nat, s: seq<nat>, rows: seq<StateRow>)
    ensures forall x :: x in InsertByDate(j, s, rows) <==> x == j || x in s
    ensures |InsertByDate(j, s, rows)| == |s| + 1
    decreases |s|
  {
    if s != [] && DateAt(rows, j) >= DateAt(rows, s[0]) {
      InsertByDateElems(j, s[1..], rows);
      assert s == [s[0]] + s[1..];
    }
  }

  /** Inserting into a sorted group keeps it sorted. */
  lemma {:induction false} InsertByDateSorted(j: nat, s: seq<nat>, rows: seq<StateRow>)
    requires SortedBy(s, rows)
    ensures SortedBy(InsertByDate(j, s, rows), rows)
    decreases |s|
  {
    if s != [] && DateAt(rows, j) >= DateAt(rows, s[0]) {
      var rest := InsertByDate(j, s[1..], rows);
      assert SortedBy(s[1..], rows);
      InsertByDateSorted(j, s[1..], rows);
      InsertByDateElems(j, s[1..], rows);
      var r := [s[0]] + rest;
      assert forall q :: 0 < q < |r| ==> r[q] == rest[q - 1];
      forall q | 0 < q < |r|
        ensures DateAt(rows, r[0]) <= DateAt(rows, r[q])
      {
        assert r[q] in rest;
        if r[q] != j {
          var p :| 0 <= p < |s[1..]| && s[1..][p] == r[q];
          assert s[p + 1] == r[q];
        }
      }
    } else if s != [] {
      var r := [j] + s;
      assert forall q :: 0 < q < |r| ==> r[q] == s[q - 1];
    }
  }

  /** Inserting a new index keeps the group free of repeats. */
  lemma {:induction false} InsertByDateDistinct(j: nat, s: seq<nat>, rows: seq<StateRow>)
    requires DistinctIndices(s) && j !in s
    ensures DistinctIndices(InsertByDate(j, s, rows))
    decreases |s|
  {
    if s != [] && DateAt(rows, j) >= DateAt(rows, s[0]) {
      var rest := InsertByDate(j, s[1..], rows);
      assert DistinctIndices(s[1..]);
      assert j !in s[1..];
      InsertByDateDistinct(j, s[1..], rows);
      InsertByDateElems(j, s[1..], rows);
      assert s[0] !in s[1..];
      var r := [s[0]] + rest;
      assert forall q :: 0 < q < |r| ==> r[q] == rest[q - 1];
      assert s[0] !in rest;
    } else if s != [] {
      var r := [j] + s;
      assert forall q :: 0 < q < |r| ==> r[q] == s[q - 1];
    }
  }

  /** Sorting a group keeps its indices, puts them in date order, and keeps
      them distinct. */
  lemma {:induction false} SortByDateSpec(s: seq<nat>, rows: seq<StateRow>)
    ensures SortedBy(SortByDate(s, rows), rows)
    ensures forall x :: x in SortByDate(s, rows) <==> x in s
    ensures |SortByDate(s, rows)| == |s|
    ensures DistinctIndices(s) ==> DistinctIndices(SortByDate(s, rows))
    decreases |s|
  {
    if s != [] {
      var init := s[..|s| - 1];
      SortByDateSpec(init, rows);
      InsertByDateElems(s[|s| - 1], SortByDate(init, rows), rows);
      InsertByDateSorted(s[|s| - 1], SortByDate(init, rows), rows);
      assert s == init + [s[|s| - 1]];
      if DistinctIndices(s) {
        assert DistinctIndices(init);
        assert s[|s| - 1] !in init;
        InsertByDateDistinct(s[|s| - 1], SortByDate(init, rows), rows);
      }
    }
  }

  /** The indices of the rows of `u`, in row order: the group
      `rows_by_user[u]` builds. */
  function IndicesOf(rows: seq<StateRow>, u: UserId): seq<nat>
    decreases |rows|
  {
    if rows == [] then []
    else IndicesOf(rows[..|rows| - 1], u) + (if rows[|rows| - 1].userId == u then [|rows| - 1] else [])
  }

  lemma {:induction false} IndicesOfContent(rows: seq<StateRow>, u: UserId)
    ensures forall j: nat :: j in IndicesOf(rows, u) <==> j < |rows| && rows[j].userId == u
    ensures DistinctIndices(IndicesOf(rows, u))
    decreases |rows|
  {
    if rows != [] {
      var init := rows[..|rows| - 1];
      IndicesOfContent(init, u);
      assert forall j :: 0 <= j < |init| ==> init[j] == rows[j];
      assert |rows| - 1 !in IndicesOf(init, u);
    }
  }

  /** A user without rows has an empty group. */
  lemma {:induction false} IndicesOfAbsent(rows: seq<StateRow>, u: UserId)
    requires forall j :: 0 <= j < |rows| ==> rows[j].userId != u
    ensures IndicesOf(rows, u) == []
    decreases |rows|
  {
    if rows != [] {
      IndicesOfAbsent(rows[..|rows| - 1], u);
    }
  }

  /** The active dates of `u`'s rows. */
  function UserActiveDates(rows: seq<StateRow>, u: UserId, active: map<UserId, set<Date>>): set<Date> {
    set j | 0 <= j < |rows| && rows[j].userId == u && rows[j].asOf in Window.ActiveOf(active, u) :: rows[j].asOf
  }

  /** Row `j` after the fill: untouched before its user's first-seen date,
      otherwise its last-active date is the latest active row date of the user
      in [first_seen, as_of], or the seed when there is none. */
  function FilledRow(rows: seq<StateRow>, j: nat, fs: map<UserId, Date>, active: map<UserId, set<Date>>, seed: map<UserId, Option<Date>>): StateRow
    requires j < |rows| && rows[j].userId in fs
  {
    var r := rows[j];
    var u := r.userId;
    if r.asOf < fs[u] then r
    else r.(lastActive := LatestIn(UserActiveDates(rows, u, active), fs[u], r.asOf).OrElse(SeedOf(seed, u)))
  }

  /** Every user of the rows is a key of `users_first_seen`. */
  predicate AllKnown(rows: seq<StateRow>, fs: map<UserId, Date>) {
    forall j :: 0 <= j < |rows| ==> rows[j].userId in fs
  }

  /** All rows after the fill. */
  function Filled(rows: seq<StateRow>, fs: map<UserId, Date>, active: map<UserId, set<Date>>, seed: map<UserId, Option<Date>>): seq<StateRow>
    requires AllKnown(rows, fs)
  {
    seq(|rows|, j requires 0 <= j < |rows| => FilledRow(rows, j, fs, active, seed))
  }

  /** One step of the pointer loop over a sorted group agrees with the
      specification of the row it writes. */
  lemma StepAgrees(rows: seq<StateRow>, u: UserId, idx: seq<nat>, t: nat, f: Date, active: map<UserId, set<Date>>, s0: Option<Date>)
    requires t < |idx| && SortedBy(idx, rows)
    requires forall j: nat :: j in idx <==> j < |rows| && rows[j].userId == u
    ensures Roll(DatesOf(idx[..t + 1], rows), f, Window.ActiveOf(active, u), s0)
         == LatestIn(UserActiveDates(rows, u, active), f, DateAt(rows, idx[t])).OrElse(s0)
  {
    var act := Window.ActiveOf(active, u);
    var ds := DatesOf(idx[..t + 1], rows);
    var d := DateAt(rows, idx[t]);
    assert ds[|ds| - 1] == d;
    RollIsLatest(ds, f, act, s0);
    var all := UserActiveDates(rows, u, active);
    forall x | f <= x <= d
      ensures x in ActiveAmong(ds, act) <==> x in all
    {
      if x in ActiveAmong(ds, act) {
        var p :| 0 <= p < |ds| && ds[p] == x;
        assert idx[p] in idx;
        assert rows[idx[p]].asOf == x;
      }
      if x in all {
        var j :| 0 <= j < |rows| && rows[j].userId == u && rows[j].asOf in act && rows[j].asOf == x;
        assert j in idx;
        var p :| 0 <= p < |idx| && idx[p] == j;
        if p <= t {
          assert ds[p] == x;
        } else {
          assert DateAt(rows, idx[t]) <= DateAt(rows, idx[p]);
          assert ds[t] == x;
        }
      }
    }
    LatestInAgree(ActiveAmong(ds, act), all, f, d);
  }

  /** One more row extends its own user's group by its index and no other. */
  lemma IndicesOfSnoc(rows: seq<StateRow>, i: nat)
    requires i < |rows|
    ensures forall v :: IndicesOf(rows[..i + 1], v) == IndicesOf(rows[..i], v) + (if rows[i].userId == v then [i] else [])
  {
    assert rows[..i + 1][..i] == rows[..i];
  }

  /** Taking one more element of a sequence appends it. */
  lemma PrefixSnoc<T>(s: seq<T>, k: nat)
    requires k < |s|
    ensures s[..k + 1] == s[..k] + [s[k]]
  {
  }

  /** The users of the first `i` rows. */
  function UsersIn(rows: seq<StateRow>, i: nat): set<UserId>
    requires i <= |rows|
  {
    set j | 0 <= j < i :: rows[j].userId
  }

  /** One more row adds its user. */
  lemma UsersInSnoc(rows: seq<StateRow>, i: nat)
    requires i < |rows|
    ensures UsersIn(rows, i + 1) == UsersIn(rows, i) + {rows[i].userId}
    ensures rows[i].userId !in UsersIn(rows, i) ==> forall j :: 0 <= j < |rows[..i]| ==> rows[..i][j].userId != rows[i].userId
  {
  }

  /** The users of `rows` once each, in order of first appearance: the key
      order of a dictionary filled row by row. */
  function FirstAppearances(rows: seq<StateRow>): seq<UserId>
    decreases |rows|
  {
    if rows == [] then []
    else
      var init := FirstAppearances(rows[..|rows| - 1]);
      if rows[|rows| - 1].userId in init then init else init + [rows[|rows| - 1].userId]
  }

  /** One more row appends its user when that user is new. */
  lemma FirstAppearancesSnoc(rows: seq<StateRow>, i: nat)
    requires i < |rows|
    ensures FirstAppearances(rows[..i + 1]) ==
      if rows[i].userId in FirstAppearances(rows[..i]) then FirstAppearances(rows[..i])
      else FirstAppearances(rows[..i]) + [rows[i].userId]
  {
    assert rows[..i + 1][..i] == rows[..i];
  }

  /** The order of the first `i` rows holds exactly their users, each once. */
  lemma {:induction false} FirstAppearancesContent(rows: seq<StateRow>, i: nat)
    requires i <= |rows|
    ensures forall u :: u in FirstAppearances(rows[..i]) <==> u in UsersIn(rows, i)
    ensures DistinctIds(FirstAppearances(rows[..i]))
    decreases i
  {
    if i == 0 {
      assert rows[..0] == [];
    } else {
      FirstAppearancesContent(rows, i - 1);
      FirstAppearancesSnoc(rows, i - 1);
      UsersInSnoc(rows, i - 1);
    }
  }

  /** For every `i`, the users of the first `i` rows come first in the order
      of all rows, in their own order: a user seen earlier is listed earlier. */
  lemma {:induction false} FirstAppearancesPrefix(rows: seq<StateRow>, i: nat)
    requires i <= |rows|
    ensures FirstAppearances(rows[..i]) <= FirstAppearances(rows)
    decreases |rows| - i
  {
    if i == |rows| {
      assert rows[..i] == rows;
    } else {
      FirstAppearancesSnoc(rows, i);
      FirstAppearancesPrefix(rows, i + 1);
    }
  }

  /** The grouping after the first `i` rows: `order` holds their users once
      each, in order of first appearance, and `groups` each one's indices. */
  ghost predicate Grouped(rows: seq<StateRow>, i: nat, order: seq<UserId>, groups: map<UserId, seq<nat>>)
    requires i <= |rows|
  {
    && (forall u :: u in groups <==> u in order)
    && (forall u :: u in groups ==> groups[u] == IndicesOf(rows[..i], u))
    && groups.Keys == UsersIn(rows, i)
    && DistinctIds(order)
    && order == FirstAppearances(rows[..i])
  }

  /** A row of a user not seen before opens that user's group. */
  lemma GroupedNewUser(rows: seq<StateRow>, i: nat, order: seq<UserId>, groups: map<UserId, seq<nat>>)
    requires i < |rows| && Grouped(rows, i, order, groups) && rows[i].userId !in groups
    ensures Grouped(rows, i + 1, order + [rows[i].userId], groups[rows[i].userId := [i]])
  {
    var u := rows[i].userId;
    var order', groups' := order + [u], groups[u := [i]];
    IndicesOfSnoc(rows, i);
    IndicesOfAbsent(rows[..i], u);
    assert forall v :: v in groups' ==> groups'[v] == IndicesOf(rows[..i + 1], v);
    UsersInSnoc(rows, i);
    assert groups'.Keys == UsersIn(rows, i + 1);
    assert DistinctIds(order') by {
      assert forall k :: 0 <= k < |order| ==> order'[k] == order[k];
    }
    FirstAppearancesSnoc(rows, i);
    assert order' == FirstAppearances(rows[..i + 1]);
  }

  /** A row of a user seen before extends that user's group. */
  lemma GroupedSeenUser(rows: seq<StateRow>, i: nat, order: seq<UserId>, groups: map<UserId, seq<nat>>)
    requires i < |rows| && Grouped(rows, i, order, groups) && rows[i].userId in groups
    ensures Grouped(rows, i + 1, order, groups[rows[i].userId := groups[rows[i].userId] + [i]])
  {
    IndicesOfSnoc(rows, i);
    UsersInSnoc(rows, i);
    FirstAppearancesSnoc(rows, i);
  }

  /** `rows_by_user`: the users in order of first appearance, each with the
      indices of their rows in row order. */
  method GroupByUser(rows: seq<StateRow>) returns (order: seq<UserId>, groups: map<UserId, seq<nat>>)
    ensures forall u :: u in groups <==> u in order
    ensures forall u :: u in order <==> exists j :: 0 <= j < |rows| && rows[j].userId == u
    ensures forall u :: u in groups ==> groups[u] == IndicesOf(rows, u)
    ensures DistinctIds(order)
    ensures order == FirstAppearances(rows)
  {
    order := [];
    groups := map[];
    var i := 0;
    assert rows[..i] == [];
    while i < |rows|
      invariant 0 <= i <= |rows|
      invariant Grouped(rows, i, order, groups)
    {
      var u := rows[i].userId;
      if u in groups {
        GroupedSeenUser(rows, i, order, groups);
        groups := groups[u := groups[u] + [i]];
      } else {
        GroupedNewUser(rows, i, order, groups);
        order := order + [u];
        groups := groups[u := [i]];
      }
      i := i + 1;
    }
    assert rows[..i] == rows;
  }

  /** Every row filled where its user is known, untouched elsewhere: what the
      fill aims at, also when it stops on an unknown user. */
  function Target(rows: seq<StateRow>, fs: map<UserId, Date>, active: map<UserId, set<Date>>, seed: map<UserId, Option<Date>>): seq<StateRow> {
    seq(|rows|, j requires 0 <= j < |rows| => if rows[j].userId in fs then FilledRow(rows, j, fs, active, seed) else rows[j])
  }

  /** The rows part-way through the fill: those of the users in `done` and
      those at the indices `processed` as in `target`, the others untouched. */
  function Progress(rows: seq<StateRow>, target: seq<StateRow>, done: seq<UserId>, processed: seq<nat>): seq<StateRow>
    requires |target| == |rows|
  {
    seq(|rows|, j requires 0 <= j < |rows| => if rows[j].userId in done || j in processed then target[j] else rows[j])
  }

  /** Filling one more row of the current user. */
  lemma ProgressStep(rows: seq<StateRow>, target: seq<StateRow>, done: seq<UserId>, processed: seq<nat>, j: nat)
    requires |target| == |rows| && j < |rows| && j !in processed
    ensures Progress(rows, target, done, processed + [j]) == Progress(rows, target, done, processed)[j := target[j]]
  {
  }

  /** Once all rows of `u` are processed, `u` counts as done. */
  lemma ProgressGroupDone(rows: seq<StateRow>, target: seq<StateRow>, done: seq<UserId>, u: UserId, idx: seq<nat>)
    requires |target| == |rows|
    requires forall j: nat :: j in idx <==> j < |rows| && rows[j].userId == u
    ensures Progress(rows, target, done, idx) == Progress(rows, target, done + [u], [])
  {
  }

  /** One more index adds its row's date. */
  lemma DatesOfSnoc(idx: seq<nat>, rows: seq<StateRow>, t: nat)
    requires t < |idx|
    ensures DatesOf(idx[..t + 1], rows) == DatesOf(idx[..t], rows) + [DateAt(rows, idx[t])]
  {
  }

  /** One more date moves the pointer to it when it is active and not before
      `fs`, and leaves it otherwise. */
  lemma RollSnoc(ds: seq<Date>, d: Date, fs: Date, act: set<Date>, seed: Option<Date>)
    ensures Roll(ds + [d], fs, act, seed) == if d < fs then Roll(ds, fs, act, seed) else if d in act then Some(d) else Roll(ds, fs, act, seed)
  {
    assert (ds + [d])[..|ds|] == ds;
  }

  /** One turn of the pointer loop: the pointer it leaves is the rolling
      pointer one row further, and the row it writes is the filled row. */
  lemma FillStep(rows: seq<StateRow>, u: UserId, idx: seq<nat>, t: nat,
                 fs: map<UserId, Date>, active: map<UserId, set<Date>>, seed: map<UserId, Option<Date>>, ptr: Option<Date>)
    requires t < |idx| && SortedBy(idx, rows) && u in fs
    requires forall j: nat :: j in idx <==> j < |rows| && rows[j].userId == u
    requires ptr == Roll(DatesOf(idx[..t], rows), fs[u], Window.ActiveOf(active, u), SeedOf(seed, u))
    ensures idx[t] < |rows| && rows[idx[t]].userId == u
    ensures
      var d := rows[idx[t]].asOf;
      var next := if d >= fs[u] && d in Window.ActiveOf(active, u) then Some(d) else ptr;
      && next == Roll(DatesOf(idx[..t + 1], rows), fs[u], Window.ActiveOf(active, u), SeedOf(seed, u))
      && FilledRow(rows, idx[t], fs, active, seed) == (if d >= fs[u] then rows[idx[t]].(lastActive := next) else rows[idx[t]])
  {
    assert idx[t] in idx;
    DatesOfSnoc(idx, rows, t);
    RollSnoc(DatesOf(idx[..t], rows), DateAt(rows, idx[t]), fs[u], Window.ActiveOf(active, u), SeedOf(seed, u));
    StepAgrees(rows, u, idx, t, fs[u], active, SeedOf(seed, u));
  }

  /** Part-way through, each row is untouched or filled. */
  lemma ProgressIsPartial(rows: seq<StateRow>, fs: map<UserId, Date>, active: map<UserId, set<Date>>, seed: map<UserId, Option<Date>>,
                          done: seq<UserId>)
    ensures forall j :: 0 <= j < |rows| ==>
      var p := Progress(rows, Target(rows, fs, active, seed), done, []);
      p[j] == rows[j] || (rows[j].userId in fs && p[j] == FilledRow(rows, j, fs, active, seed))
  {
  }

  /** With every user done and known, the rows are the filled rows. */
  lemma ProgressComplete(rows: seq<StateRow>, fs: map<UserId, Date>, active: map<UserId, set<Date>>, seed: map<UserId, Option<Date>>,
                         done: seq<UserId>)
    requires forall v :: v in done ==> v in fs
    requires forall j :: 0 <= j < |rows| ==> rows[j].userId in done
    ensures AllKnown(rows, fs)
    ensures Progress(rows, Target(rows, fs, active, seed), done, []) == Filled(rows, fs, active, seed)
  {
  }

  /** The pointer loop over one user's sorted rows: rows before the
      first-seen date `fs[u]` are skipped, an active date moves the pointer,
      and every other row gets the pointer. Rows of the users in `done` were
      filled before. */
  method FillGroup(a: array<StateRow>, snapshot: seq<StateRow>, u: UserId, idx: seq<nat>,
                   fs: map<UserId, Date>, active: map<UserId, set<Date>>, seed: map<UserId, Option<Date>>,
                   ghost target: seq<StateRow>, ghost done: seq<UserId>)
    requires a.Length == |snapshot| == |target| && u in fs
    requires SortedBy(idx, snapshot) && DistinctIndices(idx)
    requires forall j: nat :: j in idx <==> j < |snapshot| && snapshot[j].userId == u
    requires forall j :: 0 <= j < |snapshot| && snapshot[j].userId == u ==> target[j] == FilledRow(snapshot, j, fs, active, seed)
    requires a[..] == Progress(snapshot, target, done, [])
    modifies a
    ensures a[..] == Progress(snapshot, target, done + [u], [])
  {
    var f := fs[u];
    var act := Window.ActiveOf(active, u);
    var ptr := SeedOf(seed, u);
    var t := 0;
    while t < |idx|
      invariant 0 <= t <= |idx|
      invariant a[..] == Progress(snapshot, target, done, idx[..t])
      invariant ptr == Roll(DatesOf(idx[..t], snapshot), f, act, SeedOf(seed, u))
    {
      var j := idx[t];
      ghost var before := a[..];
      FillStep(snapshot, u, idx, t, fs, active, seed, ptr);
      assert j !in idx[..t];
      ProgressStep(snapshot, target, done, idx[..t], j);
      var d := a[j].asOf;
      if d >= f {
        if d in act {
          ptr := Some(d);
        }
        a[j] := a[j].(lastActive := ptr);
      }
      assert a[..] == before[j := target[j]];
      assert idx[..t + 1] == idx[..t] + [j];
      t := t + 1;
    }
    assert idx[..t] == idx;
    ProgressGroupDone(snapshot, target, done, u, idx);
  }

  /** The loop over the users in order of first appearance: each user's
      group is sorted and filled, and the loop stops at the first user that
      `users_first_seen` does not know. `done` are the users filled. */
  method FillUsers(a: array<StateRow>, snapshot: seq<StateRow>, order: seq<UserId>, groups: map<UserId, seq<nat>>,
                   fs: map<UserId, Date>, active: map<UserId, set<Date>>, seed: map<UserId, Option<Date>>,
                   ghost target: seq<StateRow>)
    returns (missing: Option<UserId>, ghost done: seq<UserId>)
    requires a[..] == snapshot && target == Target(snapshot, fs, active, seed)
    requires forall u :: u in order ==> u in groups && groups[u] == IndicesOf(snapshot, u)
    modifies a
    ensures a[..] == Progress(snapshot, target, done, [])
    ensures missing.None? ==> done == order && forall v :: v in order ==> v in fs
    ensures missing.Some? ==> missing.value in order && missing.value !in fs
    ensures missing.Some? ==> exists k :: 0 <= k < |order| && done == order[..k] && order[k] == missing.value
    ensures forall v :: v in done ==> v in fs
  {
    assert Progress(snapshot, target, [], []) == snapshot;
    done := [];
    var k := 0;
    while k < |order|
      invariant 0 <= k <= |order|
      invariant a.Length == |snapshot|
      invariant done == order[..k]
      invariant forall v :: v in done ==> v in fs
      invariant a[..] == Progress(snapshot, target, done, [])
    {
      var u := order[k];
      if u !in fs {
        return Some(u), done;
      }
      IndicesOfContent(snapshot, u);
      SortByDateSpec(groups[u], snapshot);
      var idx := SortByDate(groups[u], snapshot);
      FillGroup(a, snapshot, u, idx, fs, active, seed, target, done);
      PrefixSnoc(order, k);
      done := done + [u];
      k := k + 1;
    }
    assert order[..k] == order;
    missing := None;
  }

  /** The fill stops at `u`, the `k`-th user in order of first appearance:
      the first one `users_first_seen` does not know. */
  predicate StopsAt(rows: seq<StateRow>, fs: map<UserId, Date>, k: int, u: UserId) {
    && 0 <= k < |FirstAppearances(rows)|
    && FirstAppearances(rows)[k] == u
    && u !in fs
    && forall v :: v in FirstAppearances(rows)[..k] ==> v in fs
  }

  /** The fill as the source runs it, on the rows in place. */
  method FillLastActive(a: array<StateRow>, fs: map<UserId, Date>, active: map<UserId, set<Date>>, seed: map<UserId, Option<Date>>)
    returns (r: Result<(), FillError>)
    modifies a
    ensures r.Success? <==> AllKnown(old(a[..]), fs)
    ensures r.Success? ==> a[..] == Filled(old(a[..]), fs, active, seed)
    ensures r.Failure? ==> r.error.userId !in fs && exists j :: 0 <= j < a.Length && old(a[..])[j].userId == r.error.userId
    ensures r.Failure? ==> forall j :: 0 <= j < a.Length ==>
      a[j] == old(a[..])[j] || (old(a[..])[j].userId in fs && a[j] == FilledRow(old(a[..]), j, fs, active, seed))
    ensures r.Failure? ==>
      exists k :: StopsAt(old(a[..]), fs, k, r.error.userId) &&
                  a[..] == Progress(old(a[..]), Target(old(a[..]), fs, active, seed), FirstAppearances(old(a[..]))[..k], [])
  {
    var snapshot := a[..];
    ghost var target := Target(snapshot, fs, active, seed);
    var order, groups := GroupByUser(snapshot);
    var missing;
    ghost var done;
    missing, done := FillUsers(a, snapshot, order, groups, fs, active, seed, target);
    if missing.Some? {
      ProgressIsPartial(snapshot, fs, active, seed, done);
      ghost var k :| 0 <= k < |order| && done == order[..k] && order[k] == missing.value;
      assert StopsAt(snapshot, fs, k, missing.value);
      return Failure(MissingUser(missing.value));
    }
    ProgressComplete(snapshot, fs, active, seed, order);
    r := Success(());
  }

  /** Row `i` is a row of `u` dated in [lo, hi] on an active date of `u`. */
  predicate ActiveRow(rows: seq<StateRow>, i: int, u: UserId, lo: Date, hi: Date, active: map<UserId, set<Date>>) {
    0 <= i < |rows| && rows[i].userId == u && lo <= rows[i].asOf <= hi && rows[i].asOf in Window.ActiveOf(active, u)
  }

  /** What the fill writes into one row. Only the last-active date changes;
      a row dated before its user's first-seen date is left alone; otherwise
      the date is that of the latest active row of the user in
      [first_seen, as_of] (so an active row gets its own date), and the seed
      when there is none (so it is unset exactly when the seed is unset and
      no such row exists). */
  lemma FilledRowMeaning(rows: seq<StateRow>, fs: map<UserId, Date>, active: map<UserId, set<Date>>, seed: map<UserId, Option<Date>>, j: int)
    requires AllKnown(rows, fs) && 0 <= j < |rows|
    ensures |Filled(rows, fs, active, seed)| == |rows|
    ensures
      var r := rows[j];
      var f := Filled(rows, fs, active, seed)[j];
      var u := r.userId;
      && f == r.(lastActive := f.lastActive)
      && (r.asOf < fs[u] ==> f == r)
      && (fs[u] <= r.asOf && r.asOf in Window.ActiveOf(active, u) ==> f.lastActive == Some(r.asOf))
      && (fs[u] <= r.asOf && (exists i :: ActiveRow(rows, i, u, fs[u], r.asOf, active)) ==>
            && f.lastActive.Some?
            && (exists i :: ActiveRow(rows, i, u, fs[u], r.asOf, active) && rows[i].asOf == f.lastActive.value)
            && (forall i :: ActiveRow(rows, i, u, fs[u], r.asOf, active) ==> rows[i].asOf <= f.lastActive.value))
      && (fs[u] <= r.asOf && !(exists i :: ActiveRow(rows, i, u, fs[u], r.asOf, active)) ==>
            f.lastActive == SeedOf(seed, u))
  {
    var r := rows[j];
    var u := r.userId;
    var s := UserActiveDates(rows, u, active);
    LatestInIsLatest(s, fs[u], r.asOf);
    if fs[u] <= r.asOf {
      if exists i :: ActiveRow(rows, i, u, fs[u], r.asOf, active) {
        var i :| ActiveRow(rows, i, u, fs[u], r.asOf, active);
        assert rows[i].asOf in s;
        var m := LatestIn(s, fs[u], r.asOf).value;
        var i' :| 0 <= i' < |rows| && rows[i'].userId == u && rows[i'].asOf in Window.ActiveOf(active, u) && rows[i'].asOf == m;
        assert ActiveRow(rows, i', u, fs[u], r.asOf, active);
        forall k | ActiveRow(rows, k, u, fs[u], r.asOf, active)
          ensures rows[k].asOf <= m
        {
          assert rows[k].asOf in s;
        }
      } else {
        forall x | fs[u] <= x <= r.asOf
          ensures x !in s
        {
          if x in s {
            var i :| 0 <= i < |rows| && rows[i].userId == u && rows[i].asOf in Window.ActiveOf(active, u) && rows[i].asOf == x;
            assert ActiveRow(rows, i, u, fs[u], r.asOf, active);
          }
        }
      }
    }
  }

  /** `a` is no later than `b`, an unset date being the earliest. */
  predicate NotLater(a: Option<Date>, b: Option<Date>) {
    a.None? || (b.Some? && a.value <= b.value)
  }

  /** Every user's seed lies strictly before each of the user's rows, as the
      last activity before the window does. */
  predicate SeedsBefore(rows: seq<StateRow>, seed: map<UserId, Option<Date>>) {
    forall j :: 0 <= j < |rows| ==> SeedOf(seed, rows[j].userId).None? || SeedOf(seed, rows[j].userId).value < rows[j].asOf
  }

  /** With seeds before the window, a user's last-active date never goes back
      in time from one filled row to a later one. */
  lemma FilledIsMonotone(rows: seq<StateRow>, fs: map<UserId, Date>, active: map<UserId, set<Date>>, seed: map<UserId, Option<Date>>, i: int, j: int)
    requires AllKnown(rows, fs) && SeedsBefore(rows, seed)
    requires 0 <= i < |rows| && 0 <= j < |rows| && rows[i].userId == rows[j].userId
    requires fs[rows[i].userId] <= rows[i].asOf <= rows[j].asOf
    ensures NotLater(Filled(rows, fs, active, seed)[i].lastActive, Filled(rows, fs, active, seed)[j].lastActive)
  {
    var u := rows[i].userId;
    var s := UserActiveDates(rows, u, active);
    LatestInIsLatest(s, fs[u], rows[i].asOf);
    LatestInIsLatest(s, fs[u], rows[j].asOf);
    var li := LatestIn(s, fs[u], rows[i].asOf);
    var lj := LatestIn(s, fs[u], rows[j].asOf);
    if li.Some? {
      assert lj.Some?;
    } else if lj.Some? && SeedOf(seed, u).Some? {
      var k :| 0 <= k < |rows| && rows[k].userId == u && rows[k].asOf in Window.ActiveOf(active, u) && rows[k].asOf == lj.value;
      assert SeedOf(seed, u).value < rows[k].asOf;
    }
  }

  /** With seeds before the window, the fill keeps the check constraint
      `last_active_date <= as_of_date` on every row. */
  lemma FilledMeetsCheck(rows: seq<StateRow>, fs: map<UserId, Date>, active: map<UserId, set<Date>>, seed: map<UserId, Option<Date>>)
    requires AllKnown(rows, fs) && SeedsBefore(rows, seed)
    requires forall j :: 0 <= j < |rows| ==> LastActiveNotAfter(rows[j].asOf, rows[j].lastActive)
    ensures forall j :: 0 <= j < |rows| ==>
      LastActiveNotAfter(Filled(rows, fs, active, seed)[j].asOf, Filled(rows, fs, active, seed)[j].lastActive)
  {
    forall j | 0 <= j < |rows|
      ensures LastActiveNotAfter(Filled(rows, fs, active, seed)[j].asOf, Filled(rows, fs, active, seed)[j].lastActive)
    {
      var u := rows[j].userId;
      LatestInIsLatest(UserActiveDates(rows, u, active), fs[u], rows[j].asOf);
    }
  }
}
