/** The `user_state_daily` store (src/backend/repositories/user_state_daily_repo.py,
    and the identical `bulk_delete_range` / `bulk_insert_rows` of
    src/daulingo/compute_user_state_daily.py and scripts/2_compute_user_state_daily.py):
    a table keyed by (as_of_date, user_id), a range delete, and a chunked insert. */
module StateTable {
  import opened Dates
  import opened Tables
  import opened Wrappers
  import opened Chunking

  /** What the store raises: a primary-key or check-constraint violation, or
      the `ValueError` of `range()` with a step of zero. */
  datatype StoreError = IntegrityError | ZeroChunkSize

  /** The default `chunk_size` of `bulk_insert`. */
  const DefaultChunkSize: int := 50000

  /** The table without its rows dated in [start, end]. */
  function Outside(t: map<Key, StateRecord>, start: Date, end: Date): map<Key, StateRecord> {
    map k | k in t && !(start <= k.asOf <= end) :: t[k]
  }

  /** One INSERT of `rows` into `t` succeeds: no row's key is already stored or
      repeated among the rows, and every row meets the check constraint. */
  predicate Insertable(t: map<Key, StateRecord>, rows: seq<StateRow>) {
    && DistinctKeys(rows)
    && forall i :: 0 <= i < |rows| ==> rows[i].KeyOf() !in t && LastActiveNotAfter(rows[i].asOf, rows[i].lastActive)
  }

  /** `bulk_insert` stopped at the slice starting at `k`: the full slices
      `batches` before it were committed, and that slice conflicts with what
      they left. */
  ghost predicate FailedAtSlice(before: map<Key, StateRecord>, rows: seq<StateRow>, n: nat, batches: seq<seq<StateRow>>, k: int) {
    && 0 <= k < |rows|
    && Flatten(batches) == rows[..k]
    && (forall b :: 0 <= b < |batches| ==> |batches[b]| == n)
    && !Insertable(before + AsTable(rows[..k]), rows[k..SliceEnd(k, n, |rows|)])
  }

  /** Inserting `a + b` at once is inserting `a`, then `b` into the result. */
  lemma InsertableSplit(t: map<Key, StateRecord>, a: seq<StateRow>, b: seq<StateRow>)
    ensures Insertable(t, a + b) <==> Insertable(t, a) && Insertable(t + AsTable(a), b)
  {
    AsTableKeys(a);
    var ab := a + b;
    assert forall i :: 0 <= i < |a| ==> ab[i] == a[i];
    assert forall i :: 0 <= i < |b| ==> ab[|a| + i] == b[i];
    if Insertable(t, a) && Insertable(t + AsTable(a), b) {
      forall i, j | 0 <= i < j < |ab|
        ensures ab[i].KeyOf() != ab[j].KeyOf()
      {
        if j >= |a| && i < |a| {
          assert ab[j] == b[j - |a|];
          assert ab[i].KeyOf() in AsTable(a);
        } else if i >= |a| {
          assert ab[i] == b[i - |a|] && ab[j] == b[j - |a|];
        }
      }
    }
    if Insertable(t, ab) {
      assert forall i, j :: 0 <= i < j < |b| ==> ab[|a| + i] == b[i] && ab[|a| + j] == b[j];
    }
  }

  /** Any prefix of an insertable batch is insertable. */
  lemma InsertablePrefix(t: map<Key, StateRecord>, rows: seq<StateRow>, m: nat)
    requires m <= |rows|
    ensures Insertable(t, rows) ==> Insertable(t, rows[..m])
  {
    assert forall j :: 0 <= j < m ==> rows[..m][j] == rows[j];
  }

  /** Inserting the slice `rows[i..stop]` after `rows[..i]` is inserting
      `rows[..stop]`; if that fails, inserting all of `rows` fails. */
  lemma InsertSliceStep(t: map<Key, StateRecord>, rows: seq<StateRow>, i: nat, stop: nat)
    requires i <= stop <= |rows|
    ensures Insertable(t, rows[..stop]) <==> Insertable(t, rows[..i]) && Insertable(t + AsTable(rows[..i]), rows[i..stop])
    ensures t + AsTable(rows[..i]) + AsTable(rows[i..stop]) == t + AsTable(rows[..stop])
    ensures !Insertable(t, rows[..stop]) ==> !Insertable(t, rows)
  {
    assert rows[..i] + rows[i..stop] == rows[..stop];
    InsertableSplit(t, rows[..i], rows[i..stop]);
    AsTableAppend(rows[..i], rows[i..stop]);
    InsertablePrefix(t, rows, stop);
  }

  /** A successful insert keeps the check constraint of the table. */
  lemma InsertKeepsValid(t: map<Key, StateRecord>, rows: seq<StateRow>)
    requires ValidStateTable(t) && Insertable(t, rows)
    ensures ValidStateTable(t + AsTable(rows))
  {
    AsTableKeys(rows);
    AsTableRows(rows);
    assert forall k :: k in AsTable(rows) ==> LastActiveNotAfter(k.asOf, AsTable(rows)[k].lastActive);
  }

  /** Storing `a + b` row by row stores `a`, then `b` over it. */
  lemma {:induction false} AsTableAppend(a: seq<StateRow>, b: seq<StateRow>)
    ensures AsTable(a + b) == AsTable(a) + AsTable(b)
    decreases |b|
  {
    if b != [] {
      var b' := b[..|b| - 1];
      assert (a + b)[..|a + b| - 1] == a + b';
      AsTableAppend(a, b');
    } else {
      assert a + b == a;
    }
  }

  /** Replacing the window [start, end] of `t` by `rows`: what a delete of the
      window followed by an insert of the rows leaves. */
  function Replace(t: map<Key, StateRecord>, start: Date, end: Date, rows: seq<StateRow>): map<Key, StateRecord> {
    Outside(t, start, end) + AsTable(rows)
  }

  /** All rows are dated inside [start, end]. */
  predicate AllInWindow(rows: seq<StateRow>, start: Date, end: Date) {
    forall i :: 0 <= i < |rows| ==> start <= rows[i].asOf <= end
  }

  /** A replace leaves every row outside the window as it was, and inside the
      window holds exactly the new rows. */
  lemma ReplaceIsWindowed(t: map<Key, StateRecord>, start: Date, end: Date, rows: seq<StateRow>)
    requires AllInWindow(rows, start, end)
    ensures forall k: Key :: !(start <= k.asOf <= end) ==>
      (k in Replace(t, start, end, rows) <==> k in t) && (k in t ==> Replace(t, start, end, rows)[k] == t[k])
    ensures forall k: Key :: start <= k.asOf <= end ==>
      (k in Replace(t, start, end, rows) <==> k in AsTable(rows)) &&
      (k in AsTable(rows) ==> Replace(t, start, end, rows)[k] == AsTable(rows)[k])
  {
    AsTableKeys(rows);
  }

  /** Recomputing the same window with the same rows twice gives the same table
      as doing it once. */
  lemma ReplaceIsIdempotent(t: map<Key, StateRecord>, start: Date, end: Date, rows: seq<StateRow>)
    requires AllInWindow(rows, start, end)
    ensures Replace(Replace(t, start, end, rows), start, end, rows) == Replace(t, start, end, rows)
  {
    ReplaceIsWindowed(t, start, end, rows);
    ReplaceIsWindowed(Replace(t, start, end, rows), start, end, rows);
  }

  class UserStateDailyRepo {
    var table: map<Key, StateRecord>

    /** The database's constraints hold of the stored rows. */
    ghost predicate Valid()
      reads this
    {
      ValidStateTable(table)
    }

    constructor (initial: map<Key, StateRecord>)
      requires ValidStateTable(initial)
      ensures Valid() && table == initial
    {
      table := initial;
    }

    /** `delete_range`: removes exactly the rows with start <= as_of_date <= end
        and reports how many went, or 0 when the driver gives no row count
        (`rowcountKnown` false: `rowcount` missing, None or raising). */
    method DeleteRange(start: Date, end: Date, rowcountKnown: bool) returns (deleted: nat)
      modifies this
      ensures table == Outside(old(table), start, end)
      ensures deleted == if rowcountKnown then |old(table).Keys - table.Keys| else 0
      ensures old(Valid()) ==> Valid()
    {
      var before := table;
      table := Outside(table, start, end);
      deleted := if rowcountKnown then |before.Keys - table.Keys| else 0;
    }

    /** One `conn.execute(user_state_daily.insert(), chunk)` in its own
        transaction: all of the chunk or, on a constraint violation, none of it. */
    method InsertChunk(chunk: seq<StateRow>) returns (ok: bool)
      modifies this
      ensures ok == Insertable(old(table), chunk)
      ensures table == if ok then old(table) + AsTable(chunk) else old(table)
      ensures old(Valid()) ==> Valid()
    {
      ok := Insertable(table, chunk);
      if ok {
        if Valid() {
          InsertKeepsValid(table, chunk);
        }
        table := table + AsTable(chunk);
      }
    }

    /** `bulk_insert`: the rows in consecutive chunks of `chunkSize`
        (`range(0, len(rows), chunk_size)`), counting what was inserted. A
        zero `chunkSize` is refused by `range`; a negative one gives no chunk. */
    method BulkInsert(rows: seq<StateRow>, chunkSize: int) returns (r: Result<nat, StoreError>, ghost batches: seq<seq<StateRow>>)
      modifies this
      ensures chunkSize == 0 ==> r == Failure(ZeroChunkSize) && table == old(table)
      ensures chunkSize < 0 ==> r == Success(0) && table == old(table)
      ensures chunkSize > 0 && Insertable(old(table), rows) ==>
        r == Success(|rows|) && table == old(table) + AsTable(rows) && IsChunking(batches, rows, chunkSize)
      ensures chunkSize > 0 && !Insertable(old(table), rows) ==>
        r == Failure(IntegrityError) && exists k :: 0 <= k <= |rows| && table == old(table) + AsTable(rows[..k])
      ensures chunkSize > 0 && !Insertable(old(table), rows) ==>
        exists k :: FailedAtSlice(old(table), rows, chunkSize, batches, k) && table == old(table) + AsTable(rows[..k])
      ensures old(Valid()) ==> Valid()
    {
      batches := [];
      if chunkSize == 0 {
        r := Failure(ZeroChunkSize);
      } else if chunkSize < 0 {
        r := Success(0);
      } else {
        var ok, done;
        ok, done, batches := InsertSlices(rows, chunkSize);
        assert ok ==> rows[..done] == rows;
        assert !ok ==> FailedAtSlice(old(table), rows, chunkSize, batches, done);
        r := if ok then Success(done) else Failure(IntegrityError);
      }
    }

    /** The loop of `bulk_insert` for a positive `n`: each slice `rows[i : i + n]`
        committed on its own. On the first failing slice it stops, with the
        `done` rows before it stored. */
    method InsertSlices(rows: seq<StateRow>, n: nat) returns (ok: bool, done: nat, ghost batches: seq<seq<StateRow>>)
      requires n > 0
      modifies this
      ensures ok == Insertable(old(table), rows)
      ensures done <= |rows| && table == old(table) + AsTable(rows[..done])
      ensures ok ==> done == |rows| && IsChunking(batches, rows, n)
      ensures !ok ==> done < |rows| && Flatten(batches) == rows[..done] && (forall k :: 0 <= k < |batches| ==> |batches[k]| == n)
      ensures !ok ==> !Insertable(old(table) + AsTable(rows[..done]), rows[done..SliceEnd(done, n, |rows|)])
      ensures old(Valid()) ==> Valid()
    {
      batches := [];
      done := 0;
      var i := 0;
      while i < |rows|
        invariant SlicedBefore(batches, rows, i, n)
        invariant done == Taken(i, |rows|)
        invariant Insertable(old(table), rows[..done])
        invariant table == old(table) + AsTable(rows[..done])
        invariant old(Valid()) ==> Valid()
      {
        var stop := SliceEnd(i, n, |rows|);
        var chunk := rows[i..stop];
        assert done == i && |chunk| == stop - i && stop == Taken(i + n, |rows|);
        InsertSliceStep(old(table), rows, i, stop);
        ok := InsertChunk(chunk);
        if !ok {
          return;
        }
        SliceStep(batches, rows, i, n);
        batches := batches + [chunk];
        done := done + |chunk|;
        i := i + n;
      }
      SliceDone(batches, rows, i, n);
      ok := true;
    }

    /** `get_min_max_dates`: the earliest and latest `as_of_date`, each replaced
        by `today` when the table is empty. */
    method GetMinMaxDates(today: Date) returns (mn: Date, mx: Date)
      ensures table == map[] ==> mn == today && mx == today
      ensures table != map[] ==>
        && (exists k :: k in table && k.asOf == mn)
        && (exists k :: k in table && k.asOf == mx)
        && (forall k :: k in table ==> mn <= k.asOf <= mx)
    {
      var lo: Option<Date> := None;
      var hi: Option<Date> := None;
      var rest := table.Keys;
      while exists k :: k in rest
        invariant rest <= table.Keys
        invariant lo.None? <==> rest == table.Keys
        invariant hi.None? <==> rest == table.Keys
        invariant lo.Some? ==> exists k :: k in table && k.asOf == lo.value
        invariant hi.Some? ==> exists k :: k in table && k.asOf == hi.value
        invariant forall k :: k in table.Keys - rest ==> lo.Some? && hi.Some? && lo.value <= k.asOf <= hi.value
        decreases |rest|
      {
        var k :| k in rest;
        if lo.None? || k.asOf < lo.value {
          lo := Some(k.asOf);
        }
        if hi.None? || k.asOf > hi.value {
          hi := Some(k.asOf);
        }
        rest := rest - {k};
      }
      assert rest == {};
      if table != map[] {
        assert table.Keys != {};
        assert exists k :: k in table.Keys;
      }
      mn := lo.GetOr(today);
      mx := hi.GetOr(today);
    }
  }
}
