/** The schema of src/daulingo/tables.py: the seven growth states, the rows of
    `user_state_daily` with their composite key and check constraint, and the
    `dim_user` registry. */
module Tables {
  import opened Dates
  import opened Wrappers

  type UserId = string

  /** `GROWTH_STATE_VALUES`: a closed set of seven mutually exclusive states. */
  datatype State = New | Current | Reactivated | Resurrected | AtRiskWau | AtRiskMau | Dormant

  /** The names the `growth_state` enum column stores, in declaration order. */
  const GrowthStateValues: seq<string> :=
    ["NEW", "CURRENT", "REACTIVATED", "RESURRECTED", "AT_RISK_WAU", "AT_RISK_MAU", "DORMANT"]

  /** The stored name of a state. */
  function Name(s: State): (n: string)
    ensures n in GrowthStateValues
  {
    match s
    case New => "NEW"
    case Current => "CURRENT"
    case Reactivated => "REACTIVATED"
    case Resurrected => "RESURRECTED"
    case AtRiskWau => "AT_RISK_WAU"
    case AtRiskMau => "AT_RISK_MAU"
    case Dormant => "DORMANT"
  }

  /** What the enum column accepts: exactly the seven names, each read back as its state. */
  function FromName(n: string): (r: Option<State>)
    ensures r.Some? <==> n in GrowthStateValues
  {
    if n == "NEW" then Some(New)
    else if n == "CURRENT" then Some(Current)
    else if n == "REACTIVATED" then Some(Reactivated)
    else if n == "RESURRECTED" then Some(Resurrected)
    else if n == "AT_RISK_WAU" then Some(AtRiskWau)
    else if n == "AT_RISK_MAU" then Some(AtRiskMau)
    else if n == "DORMANT" then Some(Dormant)
    else None
  }

  /** Storing a state and reading it back is the identity, both ways round. */
  lemma NameRoundTrip(s: State, n: string)
    ensures FromName(Name(s)) == Some(s)
    ensures FromName(n).Some? ==> Name(FromName(n).value) == n
  {
  }

  /** There are exactly seven states, and distinct states have distinct names. */
  lemma SevenDistinctStates()
    ensures |GrowthStateValues| == 7
    ensures forall i, j :: 0 <= i < j < |GrowthStateValues| ==> GrowthStateValues[i] != GrowthStateValues[j]
    ensures forall s, t: State :: Name(s) == Name(t) ==> s == t
  {
    forall s, t: State | Name(s) == Name(t)
      ensures s == t
    {
      NameRoundTrip(s, "");
      NameRoundTrip(t, "");
    }
  }

  /** The four states a user is in on a day with activity. */
  predicate IsActiveState(s: State) {
    s == New || s == Current || s == Reactivated || s == Resurrected
  }

  /** The primary key of `user_state_daily`: (as_of_date, user_id). */
  datatype Key = Key(asOf: Date, userId: UserId)

  /** A row of `user_state_daily` as the engine builds it (`computed_at` is
      informational and left to the store). */
  datatype StateRow = StateRow(asOf: Date, userId: UserId, state: State, lastActive: Option<Date>) {
    function KeyOf(): Key {
      Key(asOf, userId)
    }
  }

  /** The non-key columns of a stored `user_state_daily` row. */
  datatype StateRecord = StateRecord(state: State, lastActive: Option<Date>)

  /** The check constraint `last_active_le_as_of`:
      `last_active_date IS NULL OR last_active_date <= as_of_date`. */
  predicate LastActiveNotAfter(asOf: Date, lastActive: Option<Date>) {
    lastActive.None? || lastActive.value <= asOf
  }

  /** A `user_state_daily` table: at most one record per key (a map), and every
      record meets the check constraint. */
  predicate ValidStateTable(table: map<Key, StateRecord>) {
    forall k :: k in table ==> LastActiveNotAfter(k.asOf, table[k].lastActive)
  }

  /** No two rows of a sequence share a key. */
  predicate DistinctKeys(rows: seq<StateRow>) {
    forall i, j :: 0 <= i < j < |rows| ==> rows[i].KeyOf() != rows[j].KeyOf()
  }

  /** The rows of a sequence as table entries, keyed by (as_of_date, user_id);
      inserting the rows one after another into an empty table. */
  function AsTable(rows: seq<StateRow>): (t: map<Key, StateRecord>)
    decreases |rows|
  {
    if rows == [] then map[]
    else
      var last := rows[|rows| - 1];
      AsTable(rows[..|rows| - 1])[last.KeyOf() := StateRecord(last.state, last.lastActive)]
  }

  /** The keys of `AsTable(rows)` are exactly the keys of the rows. */
  lemma {:induction false} AsTableKeys(rows: seq<StateRow>)
    ensures forall k :: k in AsTable(rows) <==> exists i :: 0 <= i < |rows| && rows[i].KeyOf() == k
    decreases |rows|
  {
    if rows != [] {
      var init := rows[..|rows| - 1];
      AsTableKeys(init);
      assert forall i :: 0 <= i < |init| ==> init[i] == rows[i];
      var last := rows[|rows| - 1];
      assert AsTable(rows) == AsTable(init)[last.KeyOf() := StateRecord(last.state, last.lastActive)];
      forall k | k in AsTable(rows)
        ensures exists i :: 0 <= i < |rows| && rows[i].KeyOf() == k
      {
        if k != rows[|rows| - 1].KeyOf() {
          var i :| 0 <= i < |init| && init[i].KeyOf() == k;
          assert rows[i].KeyOf() == k;
        }
      }
      forall k | exists i :: 0 <= i < |rows| && rows[i].KeyOf() == k
        ensures k in AsTable(rows)
      {
        var i :| 0 <= i < |rows| && rows[i].KeyOf() == k;
        if i < |init| {
          assert init[i].KeyOf() == k;
        }
      }
    }
  }

  /** With distinct keys, every row is stored under its key unchanged, and the
      table has as many entries as there are rows. */
  lemma {:induction false} AsTableRows(rows: seq<StateRow>)
    requires DistinctKeys(rows)
    ensures forall i :: 0 <= i < |rows| ==>
      rows[i].KeyOf() in AsTable(rows) && AsTable(rows)[rows[i].KeyOf()] == StateRecord(rows[i].state, rows[i].lastActive)
    ensures |AsTable(rows)| == |rows|
    decreases |rows|
  {
    if rows != [] {
      var init := rows[..|rows| - 1];
      assert forall i :: 0 <= i < |init| ==> init[i] == rows[i];
      assert DistinctKeys(init);
      AsTableRows(init);
      AsTableKeys(init);
      var last := rows[|rows| - 1];
      assert forall i :: 0 <= i < |init| ==> init[i].KeyOf() != last.KeyOf();
      assert last.KeyOf() !in AsTable(init);
      assert AsTable(rows) == AsTable(init)[last.KeyOf() := StateRecord(last.state, last.lastActive)];
    }
  }

  /** A `dim_user` table: one first-seen date per user (the primary key is the map's key). */
  type DimUserTable = map<UserId, Date>

  /** The users of `us` are pairwise distinct (a `list` of dictionary keys). */
  predicate DistinctIds(us: seq<UserId>) {
    forall i, j :: 0 <= i < j < |us| ==> us[i] != us[j]
  }

  /** `list(d.keys())` of a dictionary keyed by user: each key once, in the
      dictionary's order (the order the query returned them, left open). */
  method KeysOf<V>(d: map<UserId, V>) returns (us: seq<UserId>)
    ensures forall u :: u in us <==> u in d
    ensures DistinctIds(us)
  {
    us := [];
    var rest := d.Keys;
    while exists u :: u in rest
      invariant rest <= d.Keys
      invariant forall u :: u in us <==> u in d && u !in rest
      invariant DistinctIds(us)
      decreases |rest|
    {
      var u :| u in rest;
      us := us + [u];
      rest := rest - {u};
    }
  }
}
