/** First-seen maintenance while activity is ingested: the per-chunk fold of
    each user's earliest date and the insert-or-lower decision on `dim_user`
    (src/backend/services/ingest_activity.py, src/daulingo/ingest_activity.py
    and the loading half of scripts/1_upload_data.py). */
module Ingest {
  import opened Dates
  import opened Tables
  import opened Wrappers
  import opened Chunking
  import DimUser
  import FactActivity
  import CsvReader

  type Event = FactActivity.Event

  // ----------------------------------------------------------------------------
  // The per-chunk fold

  /** One step of `chunk_min_date`: `u`'s entry becomes `d` when it had none or
      a later one. */
  function Lower(m: DimUserTable, u: UserId, d: Date): DimUserTable {
    if u !in m || d < m[u] then m[u := d] else m
  }

  /** `chunk_min_date` after the events, folded in order. */
  function MinDates(evs: seq<Event>): DimUserTable
    decreases |evs|
  {
    if evs == [] then map[]
    else
      var e := evs[|evs| - 1];
      Lower(MinDates(evs[..|evs| - 1]), e.userId, e.day)
  }

  /** The fold holds exactly the users that appear, each with the earliest
      date among their events. */
  lemma {:induction false} MinDatesIsEarliest(evs: seq<Event>)
    ensures forall u :: u in MinDates(evs) <==> exists i :: 0 <= i < |evs| && evs[i].userId == u
    ensures forall u :: u in MinDates(evs) ==> exists i :: 0 <= i < |evs| && evs[i] == FactActivity.Event(u, MinDates(evs)[u])
    ensures forall i :: 0 <= i < |evs| ==> evs[i].userId in MinDates(evs) && MinDates(evs)[evs[i].userId] <= evs[i].day
    decreases |evs|
  {
    if evs != [] {
      var init := evs[..|evs| - 1];
      var e := evs[|evs| - 1];
      MinDatesIsEarliest(init);
      var m := MinDates(evs);
      forall i | 0 <= i < |evs|
        ensures evs[i].userId in m && m[evs[i].userId] <= evs[i].day
      {
        if i < |init| {
          assert evs[i] == init[i];
        }
      }
      forall u | u in m
        ensures exists i :: 0 <= i < |evs| && evs[i].userId == u
      {
        if u != e.userId {
          var i :| 0 <= i < |init| && init[i].userId == u;
          assert evs[i] == init[i];
        }
      }
      forall u | u in m
        ensures exists i :: 0 <= i < |evs| && evs[i] == FactActivity.Event(u, m[u])
      {
        if u == e.userId && m[u] == e.day {
          assert evs[|evs| - 1] == FactActivity.Event(u, m[u]);
        } else {
          var i :| 0 <= i < |init| && init[i] == FactActivity.Event(u, MinDates(init)[u]);
          assert evs[i] == init[i];
        }
      }
    }
  }

  /** The loop of `ingest` that builds `chunk_min_date`. */
  method ChunkMinDates(evs: seq<Event>) returns (m: DimUserTable)
    ensures m == MinDates(evs)
  {
    m := map[];
    var i := 0;
    while i < |evs|
      invariant 0 <= i <= |evs|
      invariant m == MinDates(evs[..i])
    {
      assert evs[..i + 1][..i] == evs[..i];
      var e := evs[i];
      if e.userId !in m || e.day < m[e.userId] {
        m := m[e.userId := e.day];
      }
      i := i + 1;
    }
    assert evs[..i] == evs;
  }

  /** Two registries combined: every user of either, with the earlier of the
      dates they have. */
  function Merge(a: DimUserTable, b: DimUserTable): (m: DimUserTable)
    ensures m.Keys == a.Keys + b.Keys
    ensures forall u :: u in a ==> m[u] <= a[u]
    ensures forall u :: u in b ==> m[u] <= b[u]
    ensures forall u :: u in m ==> (u in a && m[u] == a[u]) || (u in b && m[u] == b[u])
  {
    map u | u in a.Keys + b.Keys :: if u !in b || (u in a && a[u] <= b[u]) then a[u] else b[u]
  }

  /** Lowering after a merge is merging with the lowered map. */
  lemma MergeLower(a: DimUserTable, b: DimUserTable, u: UserId, d: Date)
    ensures Merge(a, Lower(b, u, d)) == Lower(Merge(a, b), u, d)
  {
    var l, r := Merge(a, Lower(b, u, d)), Lower(Merge(a, b), u, d);
    assert l.Keys == r.Keys;
    forall v | v in l
      ensures l[v] == r[v]
    {
    }
  }

  /** The fold is a homomorphism: the minima of two consecutive runs of events
      merge into the minima of both, so chunk boundaries do not matter. */
  lemma {:induction false} MinDatesOfConcat(e1: seq<Event>, e2: seq<Event>)
    ensures MinDates(e1 + e2) == Merge(MinDates(e1), MinDates(e2))
    decreases |e2|
  {
    if e2 == [] {
      assert e1 + e2 == e1;
      assert Merge(MinDates(e1), map[]) == MinDates(e1);
    } else {
      var init, e := e2[..|e2| - 1], e2[|e2| - 1];
      assert (e1 + e2)[..|e1 + e2| - 1] == e1 + init;
      MinDatesOfConcat(e1, init);
      MergeLower(MinDates(e1), MinDates(init), e.userId, e.day);
    }
  }

  /** Merging is associative. */
  lemma MergeAssociative(a: DimUserTable, b: DimUserTable, c: DimUserTable)
    ensures Merge(Merge(a, b), c) == Merge(a, Merge(b, c))
  {
    var l, r := Merge(Merge(a, b), c), Merge(a, Merge(b, c));
    assert l.Keys == r.Keys;
    forall u | u in l
      ensures l[u] == r[u]
    {
    }
  }

  // ----------------------------------------------------------------------------
  // The insert-or-lower decision

  /** The chunk's users `dim_user` does not know yet. */
  function NewUsers(t: DimUserTable, mins: DimUserTable): set<UserId> {
    set u | u in mins && u !in t
  }

  /** The registered users whose chunk minimum is strictly earlier than their
      first-seen date. */
  function EarlierUsers(t: DimUserTable, mins: DimUserTable): set<UserId> {
    set u | u in mins && u in t && mins[u] < t[u]
  }

  /** `to_insert`: for each of `ids` not in `existing`, a row with its chunk
      minimum, in the order of `ids`. */
  function InsertRows(ids: seq<UserId>, mins: DimUserTable, existing: DimUserTable): seq<DimUser.DimUserRow>
    requires forall u :: u in ids ==> u in mins
    decreases |ids|
  {
    if ids == [] then []
    else
      var rest, u := InsertRows(ids[..|ids| - 1], mins, existing), ids[|ids| - 1];
      if u !in existing then rest + [DimUser.DimUserRow(u, mins[u])] else rest
  }

  /** `to_update`: for each of `ids` whose chunk minimum is strictly earlier
      than its date in `existing`, a row with that minimum. */
  function UpdateRows(ids: seq<UserId>, mins: DimUserTable, existing: DimUserTable): seq<DimUser.DimUserRow>
    requires forall u :: u in ids ==> u in mins && u in existing
    decreases |ids|
  {
    if ids == [] then []
    else
      var rest, u := UpdateRows(ids[..|ids| - 1], mins, existing), ids[|ids| - 1];
      if mins[u] < existing[u] then rest + [DimUser.DimUserRow(u, mins[u])] else rest
  }

  /** The ids of a non-empty list are those before its last and the last. */
  lemma SplitLast(ids: seq<UserId>)
    requires ids != []
    ensures forall v :: v in ids <==> v in ids[..|ids| - 1] || v == ids[|ids| - 1]
  {
    assert ids == ids[..|ids| - 1] + [ids[|ids| - 1]];
  }

  /** The insert batch holds, for each id of `ids` missing from `existing`,
      the row with its chunk minimum, and nothing else. */
  lemma {:induction false} InsertRowsMembers(ids: seq<UserId>, mins: DimUserTable, existing: DimUserTable)
    requires forall u :: u in ids ==> u in mins
    ensures forall r :: r in InsertRows(ids, mins, existing) <==> r.userId in ids && r.userId !in existing && r.firstSeen == mins[r.userId]
    decreases |ids|
  {
    if ids != [] {
      var init := ids[..|ids| - 1];
      assert forall v :: v in init ==> v in ids;
      assert forall v :: v in ids ==> v in init || v == ids[|ids| - 1];
      InsertRowsMembers(init, mins, existing);
    }
  }

  /** With no repeated ids, the insert batch names no user twice. */
  lemma {:induction false} InsertRowsDistinct(ids: seq<UserId>, mins: DimUserTable, existing: DimUserTable)
    requires forall u :: u in ids ==> u in mins
    requires DistinctIds(ids)
    ensures DimUser.DistinctUsers(InsertRows(ids, mins, existing))
    decreases |ids|
  {
    if ids != [] {
      var init, u := ids[..|ids| - 1], ids[|ids| - 1];
      assert forall v :: v in init ==> v in ids;
      InsertRowsDistinct(init, mins, existing);
      InsertRowsMembers(init, mins, existing);
      var rest := InsertRows(init, mins, existing);
      assert u !in init;
      assert forall i :: 0 <= i < |rest| ==> rest[i] in rest;
    }
  }

  /** With no repeated ids, the insert batch has one row per id missing from
      `existing`. */
  lemma {:induction false} InsertRowsCount(ids: seq<UserId>, mins: DimUserTable, existing: DimUserTable)
    requires forall u :: u in ids ==> u in mins
    requires DistinctIds(ids)
    ensures |InsertRows(ids, mins, existing)| == |set u | u in ids && u !in existing|
    decreases |ids|
  {
    if ids != [] {
      var init, u := ids[..|ids| - 1], ids[|ids| - 1];
      SplitLast(ids);
      InsertRowsCount(init, mins, existing);
      assert u !in init;
      var before, after := set v | v in init && v !in existing, set v | v in ids && v !in existing;
      var rest := InsertRows(init, mins, existing);
      if u !in existing {
        assert after == before + {u};
        assert |InsertRows(ids, mins, existing)| == |rest| + 1;
      } else {
        assert after == before;
        assert InsertRows(ids, mins, existing) == rest;
      }
    }
  }

  /** In the update batch the last row naming a user is the one with its chunk
      minimum when that is strictly earlier, and there is none otherwise. */
  lemma {:induction false} UpdateRowsLast(ids: seq<UserId>, mins: DimUserTable, existing: DimUserTable)
    requires forall u :: u in ids ==> u in mins && u in existing
    ensures forall u :: DimUser.LastRowFor(UpdateRows(ids, mins, existing), u) == if u in ids && mins[u] < existing[u] then Some(mins[u]) else None
    decreases |ids|
  {
    if ids != [] {
      var init, u := ids[..|ids| - 1], ids[|ids| - 1];
      assert forall v :: v in init ==> v in ids;
      UpdateRowsLast(init, mins, existing);
      var rest := UpdateRows(init, mins, existing);
      if mins[u] < existing[u] {
        var rows := rest + [DimUser.DimUserRow(u, mins[u])];
        assert rows[..|rows| - 1] == rest;
      }
    }
  }

  /** With no repeated ids, the update batch has one row per id whose chunk
      minimum is strictly earlier. */
  lemma {:induction false} UpdateRowsCount(ids: seq<UserId>, mins: DimUserTable, existing: DimUserTable)
    requires forall u :: u in ids ==> u in mins && u in existing
    requires DistinctIds(ids)
    ensures |UpdateRows(ids, mins, existing)| == |set u | u in ids && mins[u] < existing[u]|
    decreases |ids|
  {
    if ids != [] {
      var init, u := ids[..|ids| - 1], ids[|ids| - 1];
      SplitLast(ids);
      UpdateRowsCount(init, mins, existing);
      assert u !in init;
      var before, after := set v | v in init && mins[v] < existing[v], set v | v in ids && mins[v] < existing[v];
      var rest := UpdateRows(init, mins, existing);
      if mins[u] < existing[u] {
        assert after == before + {u};
        assert |UpdateRows(ids, mins, existing)| == |rest| + 1;
      } else {
        assert after == before;
        assert UpdateRows(ids, mins, existing) == rest;
      }
    }
  }

  /** The insert batch is accepted: its users are new and none is twice. */
  lemma InsertRowsFresh(t: DimUserTable, mins: DimUserTable, ids: seq<UserId>, existing: DimUserTable)
    requires forall u :: u in ids <==> u in mins
    requires DistinctIds(ids)
    requires forall u :: u in existing <==> u in t && u in ids
    ensures DimUser.Insertable(t, InsertRows(ids, mins, existing))
  {
    var rows := InsertRows(ids, mins, existing);
    InsertRowsMembers(ids, mins, existing);
    InsertRowsDistinct(ids, mins, existing);
    forall i | 0 <= i < |rows|
      ensures rows[i].userId !in t
    {
      assert rows[i] in rows;
    }
  }

  /** The registry entries of the insert batch: the users of `mins` missing
      from `t`, each with its chunk minimum. */
  lemma InsertRowsAdded(t: DimUserTable, mins: DimUserTable, ids: seq<UserId>, existing: DimUserTable)
    requires forall u :: u in ids <==> u in mins
    requires DistinctIds(ids)
    requires forall u :: u in existing <==> u in t && u in ids
    ensures forall u :: u in DimUser.RowsTable(InsertRows(ids, mins, existing)) <==> u in mins && u !in t
    ensures forall u :: u in DimUser.RowsTable(InsertRows(ids, mins, existing)) ==> DimUser.RowsTable(InsertRows(ids, mins, existing))[u] == mins[u]
  {
    var rows := InsertRows(ids, mins, existing);
    InsertRowsMembers(ids, mins, existing);
    InsertRowsDistinct(ids, mins, existing);
    DimUser.RowsTableHoldsRows(rows);
    var added := DimUser.RowsTable(rows);
    forall u | u in added
      ensures u in mins && u !in t && added[u] == mins[u]
    {
      var i :| 0 <= i < |rows| && rows[i].userId == u;
      assert rows[i] in rows;
    }
    forall u | u in mins && u !in t
      ensures u in added
    {
      assert DimUser.DimUserRow(u, mins[u]) in rows;
      var i :| 0 <= i < |rows| && rows[i] == DimUser.DimUserRow(u, mins[u]);
    }
  }

  /** After the insert batch the registry holds its old entries and the
      chunk's new users with their chunk minimum. */
  lemma InsertedTable(t: DimUserTable, mins: DimUserTable, ids: seq<UserId>, existing: DimUserTable)
    requires forall u :: u in ids <==> u in mins
    requires DistinctIds(ids)
    requires forall u :: u in existing <==> u in t && u in ids
    ensures (t + DimUser.RowsTable(InsertRows(ids, mins, existing))).Keys == t.Keys + mins.Keys
    ensures forall u :: u in t + DimUser.RowsTable(InsertRows(ids, mins, existing)) ==>
      (t + DimUser.RowsTable(InsertRows(ids, mins, existing)))[u] == if u in t then t[u] else mins[u]
  {
    InsertRowsAdded(t, mins, ids, existing);
  }

  /** Inserting the new users and then applying the updates leaves the
      registry merged with the chunk's minima. */
  lemma EnsureEffect(t: DimUserTable, mins: DimUserTable, ids: seq<UserId>, existing: DimUserTable, existingIds: seq<UserId>)
    requires forall u :: u in ids <==> u in mins
    requires DistinctIds(ids)
    requires forall u :: u in existing <==> u in t && u in ids
    requires forall u :: u in existing ==> existing[u] == t[u]
    requires forall u :: u in existingIds <==> u in existing
    ensures DimUser.ApplyUpdates(t + DimUser.RowsTable(InsertRows(ids, mins, existing)), UpdateRows(existingIds, mins, existing)) == Merge(t, mins)
  {
    var t1, upd := t + DimUser.RowsTable(InsertRows(ids, mins, existing)), UpdateRows(existingIds, mins, existing);
    InsertedTable(t, mins, ids, existing);
    UpdateRowsLast(existingIds, mins, existing);
    UpdatesLower(t, mins, t1, upd);
  }

  /** Updates that name exactly the users whose chunk minimum is strictly
      earlier, applied to the registry grown by the new users, give the
      merge. */
  lemma UpdatesLower(t: DimUserTable, mins: DimUserTable, t1: DimUserTable, upd: seq<DimUser.DimUserRow>)
    requires t1.Keys == t.Keys + mins.Keys
    requires forall u :: u in t1 ==> t1[u] == if u in t then t[u] else mins[u]
    requires forall u :: DimUser.LastRowFor(upd, u) == if u in t && u in mins && mins[u] < t[u] then Some(mins[u]) else None
    ensures DimUser.ApplyUpdates(t1, upd) == Merge(t, mins)
  {
    DimUser.ApplyUpdatesEffect(t1, upd);
    var after, merged := DimUser.ApplyUpdates(t1, upd), Merge(t, mins);
    assert after.Keys == merged.Keys;
    forall u | u in after
      ensures after[u] == merged[u]
    {
      assert after[u] == DimUser.LastRowFor(upd, u).GetOr(t1[u]);
    }
  }

  /** The two batches are as large as the sets of new and of lowered users. */
  lemma EnsureCounts(t: DimUserTable, mins: DimUserTable, ids: seq<UserId>, existing: DimUserTable, existingIds: seq<UserId>)
    requires forall u :: u in ids <==> u in mins
    requires DistinctIds(ids)
    requires forall u :: u in existing <==> u in t && u in ids
    requires forall u :: u in existing ==> existing[u] == t[u]
    requires forall u :: u in existingIds <==> u in existing
    requires DistinctIds(existingIds)
    ensures |InsertRows(ids, mins, existing)| == |NewUsers(t, mins)|
    ensures |UpdateRows(existingIds, mins, existing)| == |EarlierUsers(t, mins)|
  {
    InsertRowsCount(ids, mins, existing);
    UpdateRowsCount(existingIds, mins, existing);
    assert (set u | u in ids && u !in existing) == NewUsers(t, mins);
    assert (set u | u in existingIds && mins[u] < existing[u]) == EarlierUsers(t, mins);
  }

  /** A user who is neither new nor lowered keeps the registry's date, and
      nobody's first-seen date moves later. */
  lemma FirstSeenNeverLater(t: DimUserTable, mins: DimUserTable)
    ensures forall u :: u in t ==> u in Merge(t, mins) && Merge(t, mins)[u] <= t[u]
    ensures forall u :: u in t && u !in EarlierUsers(t, mins) ==> Merge(t, mins)[u] == t[u]
    ensures forall u :: u in Merge(t, mins) && u !in t ==> u in NewUsers(t, mins) && Merge(t, mins)[u] == mins[u]
  {
  }

  /** After ingesting `evs`, every user who had an event is registered on or
      before each of their event dates, and on one of them unless the
      registry already had an earlier date. */
  lemma {:induction false} RegisteredByEarliestEvent(t: DimUserTable, evs: seq<Event>)
    ensures forall i :: 0 <= i < |evs| ==> evs[i].userId in Merge(t, MinDates(evs)) && Merge(t, MinDates(evs))[evs[i].userId] <= evs[i].day
    ensures forall u :: u in Merge(t, MinDates(evs)) && u !in t ==> exists i :: 0 <= i < |evs| && evs[i] == FactActivity.Event(u, Merge(t, MinDates(evs))[u])
  {
    MinDatesIsEarliest(evs);
  }

  /** The number of users new to the registry adds up across consecutive
      chunks to the number new across both. */
  lemma NewUsersAdd(t: DimUserTable, a: DimUserTable, b: DimUserTable)
    ensures |NewUsers(t, a)| + |NewUsers(Merge(t, a), b)| == |NewUsers(t, Merge(a, b))|
  {
    var x, y := NewUsers(t, a), NewUsers(Merge(t, a), b);
    assert x !! y;
    assert x + y == NewUsers(t, Merge(a, b));
  }

  // ----------------------------------------------------------------------------
  // The service

  /** `ActivityIngestService`: keeps `dim_user` first-seen dates at the
      earliest activity and appends the events to `fact_activity`. */
  class ActivityIngestService {
    const dimUsers: DimUser.DimUserRepo
    const factActivity: FactActivity.FactActivityRepo

    constructor (dim: DimUser.DimUserRepo, facts: FactActivity.FactActivityRepo)
      ensures dimUsers == dim && factActivity == facts
    {
      dimUsers := dim;
      factActivity := facts;
    }

    /** `_ensure_dim_users`: inserts the chunk's unknown users with their
        chunk minimum and lowers the known ones whose chunk minimum is
        strictly earlier; reports how many of each. */
    method EnsureDimUsers(mins: DimUserTable) returns (inserted: nat, updated: nat)
      modifies dimUsers
      ensures dimUsers.firstSeen == Merge(old(dimUsers.firstSeen), mins)
      ensures inserted == |NewUsers(old(dimUsers.firstSeen), mins)|
      ensures updated == |EarlierUsers(old(dimUsers.firstSeen), mins)|
    {
      if mins == map[] {
        assert Merge(dimUsers.firstSeen, mins) == dimUsers.firstSeen;
        assert NewUsers(dimUsers.firstSeen, mins) == {};
        assert EarlierUsers(dimUsers.firstSeen, mins) == {};
        return 0, 0;
      }
      var ids := KeysOf(mins);
      var existing := dimUsers.FirstSeenFor(ids);
      var existingIds := KeysOf(existing);
      var toInsert := InsertRows(ids, mins, existing);
      var toUpdate := UpdateRows(existingIds, mins, existing);
      InsertRowsFresh(dimUsers.firstSeen, mins, ids, existing);
      EnsureEffect(dimUsers.firstSeen, mins, ids, existing, existingIds);
      EnsureCounts(dimUsers.firstSeen, mins, ids, existing, existingIds);
      var r := dimUsers.InsertUsers(toInsert);
      updated := dimUsers.UpdateFirstSeen(toUpdate);
      inserted := r.value;
    }

    /** `ingest`: folds the chunk's minima, maintains `dim_user`, appends the
        events and reports (events inserted, users inserted, users lowered). */
    method Ingest(events: seq<Event>) returns (inserted: nat, insertedUsers: nat, updatedUsers: nat)
      modifies dimUsers, factActivity
      ensures dimUsers.firstSeen == Merge(old(dimUsers.firstSeen), MinDates(events))
      ensures factActivity.events == old(factActivity.events) + events
      ensures inserted == |events|
      ensures insertedUsers == |NewUsers(old(dimUsers.firstSeen), MinDates(events))|
      ensures updatedUsers == |EarlierUsers(old(dimUsers.firstSeen), MinDates(events))|
    {
      var mins := ChunkMinDates(events);
      insertedUsers, updatedUsers := EnsureDimUsers(mins);
      inserted := factActivity.BulkInsert(events);
    }
  }

  /** `ingest_chunk(conn, events)` of src/daulingo: the same steps on the
      tables behind one connection. */
  method IngestChunk(dim: DimUser.DimUserRepo, facts: FactActivity.FactActivityRepo, events: seq<Event>)
    returns (inserted: nat, insertedUsers: nat, updatedUsers: nat)
    modifies dim, facts
    ensures dim.firstSeen == Merge(old(dim.firstSeen), MinDates(events))
    ensures facts.events == old(facts.events) + events
    ensures inserted == |events|
    ensures insertedUsers == |NewUsers(old(dim.firstSeen), MinDates(events))|
    ensures updatedUsers == |EarlierUsers(old(dim.firstSeen), MinDates(events))|
  {
    var service := new ActivityIngestService(dim, facts);
    inserted, insertedUsers, updatedUsers := service.Ingest(events);
  }

  /** `main` of scripts/1_upload_data.py: every chunk the reader yields is
      ingested in turn, in one transaction, and the counts are totalled. The
      registry ends up merged with the earliest date of each user over the
      whole file, whatever the chunking, and the users reported as inserted
      are exactly the users new to it. */
  method UploadChunks(dim: DimUser.DimUserRepo, facts: FactActivity.FactActivityRepo, chunks: seq<seq<Event>>)
    returns (totalEvents: nat, totalInsertedUsers: nat, totalUpdatedUsers: nat)
    modifies dim, facts
    ensures dim.firstSeen == Merge(old(dim.firstSeen), MinDates(Flatten(chunks)))
    ensures facts.events == old(facts.events) + Flatten(chunks)
    ensures totalEvents == |Flatten(chunks)|
    ensures totalInsertedUsers == |NewUsers(old(dim.firstSeen), MinDates(Flatten(chunks)))|
  {
    totalEvents, totalInsertedUsers, totalUpdatedUsers := 0, 0, 0;
    var k := 0;
    while k < |chunks|
      invariant 0 <= k <= |chunks|
      invariant dim.firstSeen == Merge(old(dim.firstSeen), MinDates(Flatten(chunks[..k])))
      invariant facts.events == old(facts.events) + Flatten(chunks[..k])
      invariant totalEvents == |Flatten(chunks[..k])|
      invariant totalInsertedUsers == |NewUsers(old(dim.firstSeen), MinDates(Flatten(chunks[..k])))|
    {
      ghost var done, next := Flatten(chunks[..k]), Flatten(chunks[..k + 1]);
      assert chunks[..k + 1] == chunks[..k] + [chunks[k]];
      FlattenAppend(chunks[..k], chunks[k]);
      assert old(facts.events) + next == (old(facts.events) + done) + chunks[k];
      MinDatesOfConcat(done, chunks[k]);
      MergeAssociative(old(dim.firstSeen), MinDates(done), MinDates(chunks[k]));
      NewUsersAdd(old(dim.firstSeen), MinDates(done), MinDates(chunks[k]));
      var inserted, insertedUsers, updatedUsers := IngestChunk(dim, facts, chunks[k]);
      totalEvents := totalEvents + inserted;
      totalInsertedUsers := totalInsertedUsers + insertedUsers;
      totalUpdatedUsers := totalUpdatedUsers + updatedUsers;
      k := k + 1;
    }
    assert chunks[..k] == chunks;
  }

  /** `main` of scripts/1_upload_data.py around the reader: the chunks read
      before the reader stops are ingested inside `engine.begin()`; when the
      reader stops on an error, the exception leaves the block and the
      transaction is rolled back, so neither table keeps any chunk. */
  method UploadFile<E>(dim: DimUser.DimUserRepo, facts: FactActivity.FactActivityRepo, out: CsvReader.ReadOutcome<Event, E>)
    returns (r: Result<(nat, nat, nat), CsvReader.ReadError<E>>)
    modifies dim, facts
    ensures out.error.Some? ==>
      r == Failure(out.error.value) && dim.firstSeen == old(dim.firstSeen) && facts.events == old(facts.events)
    ensures out.error.None? ==>
      && r.Success?
      && dim.firstSeen == Merge(old(dim.firstSeen), MinDates(Flatten(out.chunks)))
      && facts.events == old(facts.events) + Flatten(out.chunks)
      && r.value.0 == |Flatten(out.chunks)|
      && r.value.1 == |NewUsers(old(dim.firstSeen), MinDates(Flatten(out.chunks)))|
  {
    var savedUsers, savedEvents := dim.firstSeen, facts.events;
    var totalEvents, totalInsertedUsers, totalUpdatedUsers := UploadChunks(dim, facts, out.chunks);
    if out.error.Some? {
      dim.firstSeen, facts.events := savedUsers, savedEvents;
      return Failure(out.error.value);
    }
    r := Success((totalEvents, totalInsertedUsers, totalUpdatedUsers));
  }
}
