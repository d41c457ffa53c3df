/** The `dim_user` registry and its queries (src/backend/repositories/dim_user_repo.py,
    with the same `load_users` query in src/daulingo/compute_user_state_daily.py
    and scripts/2_compute_user_state_daily.py). */
module DimUser {
  import opened Dates
  import opened Tables
  import opened Wrappers

  /** A row to insert into, or update in, `dim_user`. */
  datatype DimUserRow = DimUserRow(userId: UserId, firstSeen: Date)

  /** An insert that collides with the primary key raises. */
  datatype DimUserError = DuplicateUser

  /** No two rows name the same user. */
  predicate DistinctUsers(rows: seq<DimUserRow>) {
    forall i, j :: 0 <= i < j < |rows| ==> rows[i].userId != rows[j].userId
  }

  /** The rows as registry entries, later rows overriding earlier ones. */
  function RowsTable(rows: seq<DimUserRow>): DimUserTable
    decreases |rows|
  {
    if rows == [] then map[]
    else
      var r := rows[|rows| - 1];
      RowsTable(rows[..|rows| - 1])[r.userId := r.firstSeen]
  }

  /** With distinct users, `RowsTable` holds exactly the rows' users, each
      with the date of its row. */
  lemma {:induction false} RowsTableHoldsRows(rows: seq<DimUserRow>)
    requires DistinctUsers(rows)
    ensures forall u :: u in RowsTable(rows) <==> exists i :: 0 <= i < |rows| && rows[i].userId == u
    ensures forall i :: 0 <= i < |rows| ==> RowsTable(rows)[rows[i].userId] == rows[i].firstSeen
    decreases |rows|
  {
    if rows != [] {
      var init := rows[..|rows| - 1];
      assert forall i :: 0 <= i < |init| ==> init[i] == rows[i];
      RowsTableHoldsRows(init);
      forall u | u in RowsTable(rows)
        ensures exists i :: 0 <= i < |rows| && rows[i].userId == u
      {
        if u != rows[|rows| - 1].userId {
          var i :| 0 <= i < |init| && init[i].userId == u;
          assert rows[i].userId == u;
        }
      }
    }
  }

  /** A batch the primary key accepts: new users, none of them twice. */
  predicate Insertable(t: DimUserTable, rows: seq<DimUserRow>) {
    DistinctUsers(rows) && forall i :: 0 <= i < |rows| ==> rows[i].userId !in t
  }

  /** Inserting the rows one at a time: the next row is accepted exactly when
      its user is neither registered nor among the rows already taken, and a
      refused row dooms the whole batch. */
  lemma InsertStep(t: DimUserTable, rows: seq<DimUserRow>, i: nat)
    requires i < |rows| && Insertable(t, rows[..i])
    ensures rows[i].userId in t + RowsTable(rows[..i]) ==> !Insertable(t, rows)
    ensures rows[i].userId !in t + RowsTable(rows[..i]) ==>
      && Insertable(t, rows[..i + 1])
      && t + RowsTable(rows[..i + 1]) == (t + RowsTable(rows[..i]))[rows[i].userId := rows[i].firstSeen]
  {
    var prefix, u := rows[..i], rows[i].userId;
    assert forall j :: 0 <= j < i ==> prefix[j] == rows[j];
    RowsTableHoldsRows(prefix);
    if u in t + RowsTable(prefix) {
      if u !in t {
        var j :| 0 <= j < i && prefix[j].userId == u;
        assert rows[j].userId == rows[i].userId;
      }
    } else {
      var next := rows[..i + 1];
      assert next[..i] == prefix && next[i] == rows[i];
      assert RowsTable(next) == RowsTable(prefix)[u := rows[i].firstSeen];
      assert forall j :: 0 <= j < i ==> next[j].userId in RowsTable(prefix);
    }
  }

  /** The date the last row for `u` carries, if any row does. */
  function LastRowFor(rows: seq<DimUserRow>, u: UserId): Option<Date>
    decreases |rows|
  {
    if rows == [] then None
    else if rows[|rows| - 1].userId == u then Some(rows[|rows| - 1].firstSeen)
    else LastRowFor(rows[..|rows| - 1], u)
  }

  /** The `UPDATE dim_user SET first_seen_date = ... WHERE user_id = ...`
      statements of a batch, run in order. */
  function ApplyUpdates(t: DimUserTable, rows: seq<DimUserRow>): DimUserTable
    decreases |rows|
  {
    if rows == [] then t
    else
      var r := rows[|rows| - 1];
      var before := ApplyUpdates(t, rows[..|rows| - 1]);
      if r.userId in before then before[r.userId := r.firstSeen] else before
  }

  /** An update batch never adds or removes a user, and leaves each user with
      the date of the last row naming them, or the date they had. */
  lemma {:induction false} ApplyUpdatesEffect(t: DimUserTable, rows: seq<DimUserRow>)
    ensures ApplyUpdates(t, rows).Keys == t.Keys
    ensures forall u :: u in t ==> ApplyUpdates(t, rows)[u] == LastRowFor(rows, u).GetOr(t[u])
    decreases |rows|
  {
    if rows != [] {
      ApplyUpdatesEffect(t, rows[..|rows| - 1]);
    }
  }

  class DimUserRepo {
    var firstSeen: DimUserTable

    constructor (initial: DimUserTable)
      ensures firstSeen == initial
    {
      firstSeen := initial;
    }

    /** `users_on_or_before`: the users first seen on or before `windowEnd`,
        with their first-seen dates. */
    method UsersOnOrBefore(windowEnd: Date) returns (r: DimUserTable)
      ensures forall u :: u in r <==> u in firstSeen && firstSeen[u] <= windowEnd
      ensures forall u :: u in r ==> r[u] == firstSeen[u]
    {
      r := map u | u in firstSeen && firstSeen[u] <= windowEnd :: firstSeen[u];
    }

    /** `first_seen_for`: the registered users among `userIds`, with their
        first-seen dates; unknown ids are absent. */
    method FirstSeenFor(userIds: seq<UserId>) returns (r: DimUserTable)
      ensures forall u :: u in r <==> u in firstSeen && u in userIds
      ensures forall u :: u in r ==> r[u] == firstSeen[u]
    {
      if userIds == [] {
        return map[];
      }
      r := map u | u in firstSeen && u in userIds :: firstSeen[u];
    }

    /** `insert_users`: in one transaction, all of the rows or, when one
        collides with the primary key, none of them. */
    method InsertUsers(rows: seq<DimUserRow>) returns (r: Result<nat, DimUserError>)
      modifies this
      ensures Insertable(old(firstSeen), rows) ==>
        r == Success(|rows|) && firstSeen == old(firstSeen) + RowsTable(rows)
      ensures !Insertable(old(firstSeen), rows) ==>
        r == Failure(DuplicateUser) && firstSeen == old(firstSeen)
    {
      if rows == [] {
        assert firstSeen + RowsTable(rows) == firstSeen;
        return Success(0);
      }
      var pending := firstSeen;
      var i := 0;
      while i < |rows|
        invariant 0 <= i <= |rows|
        invariant firstSeen == old(firstSeen)
        invariant Insertable(firstSeen, rows[..i])
        invariant pending == firstSeen + RowsTable(rows[..i])
      {
        var row := rows[i];
        InsertStep(firstSeen, rows, i);
        if row.userId in pending {
          return Failure(DuplicateUser);
        }
        pending := pending[row.userId := row.firstSeen];
        i := i + 1;
      }
      assert rows[..i] == rows;
      firstSeen := pending;
      r := Success(|rows|);
    }

    /** `update_first_seen`: one UPDATE per row, in order, each touching only a
        user already registered; reports the number of rows given. Whether
        the new date is earlier is not checked here. */
    method UpdateFirstSeen(rows: seq<DimUserRow>) returns (n: nat)
      modifies this
      ensures firstSeen == ApplyUpdates(old(firstSeen), rows)
      ensures n == |rows|
    {
      var i := 0;
      while i < |rows|
        invariant 0 <= i <= |rows|
        invariant firstSeen == ApplyUpdates(old(firstSeen), rows[..i])
      {
        assert rows[..i + 1][..i] == rows[..i];
        if rows[i].userId in firstSeen {
          firstSeen := firstSeen[rows[i].userId := rows[i].firstSeen];
        }
        i := i + 1;
      }
      assert rows[..i] == rows;
      n := |rows|;
    }
  }
}
