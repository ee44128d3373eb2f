/**
 * The CRUD helpers over `user_sources`. The table is a sequence of rows in
 * storage order plus the next auto-increment key. The queries are pure
 * functions of the table; the writes are spec functions from the old table
 * to the new one, and `UserSourceDb` is the session object whose methods
 * perform them in place.
 *
 * A row is keyed, for lookup and delete, by the triple
 * (user_id, source_id, source_title). Inserting a `source_type` label
 * outside the enum is rejected by the database: the insert raises and the
 * table is unchanged.
 */
module UserSourceCrud {
  import opened Wrappers
  import opened Seqs
  import opened SourceSchema

  datatype Table = Table(rows: seq<UserSource>, nextId: nat)

  predicate Valid(t: Table) {
    ValidRows(t.rows, t.nextId)
  }

  /** The three-column filter of `get_user_source`. */
  predicate Keyed(row: UserSource, userId: string, sourceId: string, title: string) {
    row.userId == userId && row.sourceId == sourceId && row.sourceTitle == title
  }

  /** Position of the row `get_user_source` returns. */
  function MatchIndex(t: Table, userId: string, sourceId: string, title: string): (r: Option<nat>)
    ensures r.Some? ==> r.value < |t.rows| && Keyed(t.rows[r.value], userId, sourceId, title)
    ensures r.Some? ==> forall j :: 0 <= j < r.value ==> !Keyed(t.rows[j], userId, sourceId, title)
    ensures r.None? <==> forall j :: 0 <= j < |t.rows| ==> !Keyed(t.rows[j], userId, sourceId, title)
  {
    FirstIndex(t.rows, (row: UserSource) => Keyed(row, userId, sourceId, title))
  }

  /** `get_user_source`: the first row matching all three columns, or none. */
  function GetUserSource(t: Table, userId: string, sourceId: string, title: string): (r: Option<UserSource>)
    ensures r.None? <==> forall j :: 0 <= j < |t.rows| ==> !Keyed(t.rows[j], userId, sourceId, title)
    ensures r.Some? ==>
      exists i :: 0 <= i < |t.rows| && t.rows[i] == r.value
        && Keyed(t.rows[i], userId, sourceId, title)
        && forall j :: 0 <= j < i ==> !Keyed(t.rows[j], userId, sourceId, title)
  {
    match MatchIndex(t, userId, sourceId, title)
    case None => None
    case Some(i) => Some(t.rows[i])
  }

  /** `get_user_sources`: the rows of one user, in table order. */
  function GetUserSources(t: Table, userId: string): (r: seq<UserSource>)
    ensures forall row :: row in r ==> row.userId == userId
    ensures forall row :: multiset(r)[row] == if row.userId == userId then multiset(t.rows)[row] else 0
  {
    Filter(t.rows, (row: UserSource) => row.userId == userId)
  }

  predicate OfType(row: UserSource, userId: string, sourceType: SourceType) {
    row.userId == userId && row.sourceType == sourceType
  }

  /** The `source_id` of each row of that user and type, in order. */
  function SourceIdsOfType(rows: seq<UserSource>, userId: string, sourceType: SourceType): (ids: seq<string>)
    ensures |ids| <= |rows|
  {
    if rows == [] then []
    else (if OfType(rows[0], userId, sourceType) then [rows[0].sourceId] else [])
         + SourceIdsOfType(rows[1..], userId, sourceType)
  }

  /** `get_source_ids_by_type`. */
  function GetSourceIdsByType(t: Table, userId: string, sourceType: SourceType): seq<string> {
    SourceIdsOfType(t.rows, userId, sourceType)
  }

  /** Every row of that user and type contributes its `source_id`, and only such rows do. */
  lemma {:induction false} SourceIdsOfTypeExact(rows: seq<UserSource>, userId: string, sourceType: SourceType)
    ensures forall row :: row in rows && OfType(row, userId, sourceType) ==>
      row.sourceId in SourceIdsOfType(rows, userId, sourceType)
    ensures forall id :: id in SourceIdsOfType(rows, userId, sourceType) ==>
      exists row :: row in rows && OfType(row, userId, sourceType) && row.sourceId == id
  {
    if rows != [] {
      SourceIdsOfTypeExact(rows[1..], userId, sourceType);
      assert forall row :: row in rows ==> row == rows[0] || row in rows[1..];
    }
  }

  /** Table order is kept: a row added at the end contributes its id at the end. */
  lemma {:induction false} SourceIdsOfTypeAppend(rows: seq<UserSource>, row: UserSource, userId: string, sourceType: SourceType)
    ensures SourceIdsOfType(rows + [row], userId, sourceType)
      == SourceIdsOfType(rows, userId, sourceType) + (if OfType(row, userId, sourceType) then [row.sourceId] else [])
  {
    if rows == [] {
      assert rows + [row] == [row];
      assert [row][1..] == [];
    } else {
      assert (rows + [row])[1..] == rows[1..] + [row];
      SourceIdsOfTypeAppend(rows[1..], row, userId, sourceType);
    }
  }

  /** Outcome of `create_user_source`: the new table and row, or the insert raised. */
  datatype Insert = Inserted(table: Table, row: UserSource) | InsertRaised

  /** `create_user_source` at clock reading `now`. */
  function Created(t: Table, userId: string, sourceId: string, title: string, typeName: string, now: nat): Insert {
    match ParseSourceType(typeName)
    case None => InsertRaised
    case Some(sourceType) =>
      var row := UserSource(t.nextId, userId, sourceId, sourceType, title, now, now);
      Inserted(Table(t.rows + [row], t.nextId + 1), row)
  }

  /** Outcome of `delete_user_source`: the new table and whether a row went. */
  datatype Removal = Removal(table: Table, removed: bool)

  /** `delete_user_source`. */
  function Deleted(t: Table, userId: string, sourceId: string, title: string): Removal {
    match MatchIndex(t, userId, sourceId, title)
    case None => Removal(t, false)
    case Some(i) => Removal(Table(t.rows[..i] + t.rows[i + 1..], t.nextId), true)
  }

  /** Outcome of `upsert_user_source`: the new table, the row and `is_new`, or the insert raised. */
  datatype Upsert = UpsertDone(table: Table, row: UserSource, isNew: bool) | UpsertRaised

  /** `upsert_user_source` at clock reading `now`; the type label defaults to "pdf". */
  function Upserted(t: Table, userId: string, sourceId: string, title: string, now: nat,
                    typeName: string := "pdf"): Upsert
  {
    match MatchIndex(t, userId, sourceId, title)
    case Some(i) =>
      var row := t.rows[i].(updatedAt := now);
      UpsertDone(Table(t.rows[i := row], t.nextId), row, false)
    case None =>
      match Created(t, userId, sourceId, title, typeName, now)
      case InsertRaised => UpsertRaised
      case Inserted(t', row) => UpsertDone(t', row, true)
  }

  /** A new row gets a fresh key, so every write keeps the key unique. */
  lemma WritesPreserveValid(t: Table, userId: string, sourceId: string, title: string, typeName: string, now: nat)
    requires Valid(t)
    ensures Created(t, userId, sourceId, title, typeName, now).Inserted? ==>
      Valid(Created(t, userId, sourceId, title, typeName, now).table)
    ensures Valid(Deleted(t, userId, sourceId, title).table)
    ensures Upserted(t, userId, sourceId, title, now, typeName).UpsertDone? ==>
      Valid(Upserted(t, userId, sourceId, title, now, typeName).table)
  {
    var d := Deleted(t, userId, sourceId, title);
    match MatchIndex(t, userId, sourceId, title)
    case None =>
    case Some(i) =>
      var rows := d.table.rows;
      assert forall j :: 0 <= j < |rows| ==> rows[j] == t.rows[if j < i then j else j + 1];
  }

  /**
   * Upserting an absent triple appends exactly one row carrying the given
   * fields, a fresh key and `created_at == updated_at == now`, and reports
   * `is_new`; a label outside the enum makes it raise instead. The new row
   * is what a lookup of the triple now finds.
   */
  lemma UpsertAbsent(t: Table, userId: string, sourceId: string, title: string, now: nat, typeName: string)
    requires GetUserSource(t, userId, sourceId, title).None?
    ensures var u := Upserted(t, userId, sourceId, title, now, typeName);
      (u.UpsertRaised? <==> ParseSourceType(typeName).None?)
      && (u.UpsertDone? ==>
            u.isNew && u.table.rows == t.rows + [u.row] && u.table.nextId == t.nextId + 1
            && u.row == UserSource(t.nextId, userId, sourceId, ParseSourceType(typeName).value, title, now, now)
            && GetUserSource(u.table, userId, sourceId, title) == Some(u.row))
  {
    var u := Upserted(t, userId, sourceId, title, now, typeName);
    if u.UpsertDone? {
      var rows := u.table.rows;
      assert forall j :: 0 <= j < |t.rows| ==> rows[j] == t.rows[j];
      assert Keyed(rows[|t.rows|], userId, sourceId, title);
      var m := MatchIndex(u.table, userId, sourceId, title);
      assert m.Some?;
      assert m.value == |t.rows|;
    }
  }

  /**
   * Upserting a present triple rewrites only the `updated_at` of the row a
   * lookup finds (at index `i`): title and type stay, no row is added, and
   * `is_new` is false.
   */
  lemma UpsertPresent(t: Table, userId: string, sourceId: string, title: string, now: nat, typeName: string)
    returns (i: nat)
    requires GetUserSource(t, userId, sourceId, title).Some?
    ensures i < |t.rows| && GetUserSource(t, userId, sourceId, title) == Some(t.rows[i])
    ensures var u := Upserted(t, userId, sourceId, title, now, typeName);
      u.UpsertDone? && !u.isNew && u.table.nextId == t.nextId
      && |u.table.rows| == |t.rows|
      && u.row == t.rows[i].(updatedAt := now)
      && u.table.rows[i] == u.row
      && (forall j :: 0 <= j < |t.rows| && j != i ==> u.table.rows[j] == t.rows[j])
  {
    i := MatchIndex(t, userId, sourceId, title).value;
  }

  /** A second identical upsert always finds the row: `is_new` is false and no row is added. */
  lemma UpsertIdempotent(t: Table, userId: string, sourceId: string, title: string, now: nat, later: nat, typeName: string)
    requires Upserted(t, userId, sourceId, title, now, typeName).UpsertDone?
    ensures var t1 := Upserted(t, userId, sourceId, title, now, typeName).table;
      var u := Upserted(t1, userId, sourceId, title, later, typeName);
      u.UpsertDone? && !u.isNew && |u.table.rows| == |t1.rows| && u.table.nextId == t1.nextId
  {
    var u1 := Upserted(t, userId, sourceId, title, now, typeName);
    var t1 := u1.table;
    match MatchIndex(t, userId, sourceId, title)
    case Some(i) =>
      assert Keyed(t1.rows[i], userId, sourceId, title);
    case None =>
      assert Keyed(t1.rows[|t.rows|], userId, sourceId, title);
  }

  /**
   * Deleting removes one occurrence of exactly the row a lookup finds and
   * reports true; with no match it reports false and the table is unchanged.
   */
  lemma DeleteExact(t: Table, userId: string, sourceId: string, title: string)
    ensures var d := Deleted(t, userId, sourceId, title);
      match GetUserSource(t, userId, sourceId, title)
      case None => !d.removed && d.table == t
      case Some(row) =>
        d.removed && d.table.nextId == t.nextId
        && multiset(d.table.rows) == multiset(t.rows) - multiset{row}
        && |d.table.rows| == |t.rows| - 1
  {
    match MatchIndex(t, userId, sourceId, title)
    case None =>
    case Some(i) =>
      assert t.rows == t.rows[..i] + [t.rows[i]] + t.rows[i + 1..];
  }

  /**
   * The compensating delete undoes an upsert that created its row: the
   * rows are back to what they were (only the key counter has moved on).
   */
  lemma RollbackRestores(t: Table, userId: string, sourceId: string, title: string, now: nat, typeName: string)
    requires Upserted(t, userId, sourceId, title, now, typeName).UpsertDone?
    requires Upserted(t, userId, sourceId, title, now, typeName).isNew
    ensures var t1 := Upserted(t, userId, sourceId, title, now, typeName).table;
      var d := Deleted(t1, userId, sourceId, title);
      d.removed && d.table.rows == t.rows && d.table.nextId == t.nextId + 1
  {
    var t1 := Upserted(t, userId, sourceId, title, now, typeName).table;
    assert forall j :: 0 <= j < |t.rows| ==> t1.rows[j] == t.rows[j];
    assert Keyed(t1.rows[|t.rows|], userId, sourceId, title);
    var m := MatchIndex(t1, userId, sourceId, title);
    assert m.Some?;
    assert m.value == |t.rows|;
    assert t1.rows[..|t.rows|] == t.rows;
  }

  /** The session over `user_sources`: a table of rows changed in place. */
  class UserSourceDb {
    var rows: seq<UserSource>
    var nextId: nat

    function State(): Table
      reads this
    {
      Table(rows, nextId)
    }

    /** An empty table; keys start at 1. */
    constructor()
      ensures State() == Table([], 1)
    {
      rows := [];
      nextId := 1;
    }

    /** `create_user_source`: insert and return the refreshed row, or raise. */
    method CreateUserSource(userId: string, sourceId: string, title: string, typeName: string, now: nat)
      returns (row: Option<UserSource>)
      modifies this
      ensures var c := Created(old(State()), userId, sourceId, title, typeName, now);
        (c.InsertRaised? ==> row.None? && State() == old(State()))
        && (c.Inserted? ==> row == Some(c.row) && State() == c.table)
    {
      var parsed := ParseSourceType(typeName);
      if parsed.None? {
        return None;
      }
      var r := UserSource(nextId, userId, sourceId, parsed.value, title, now, now);
      rows := rows + [r];
      nextId := nextId + 1;
      row := Some(r);
    }

    /** `delete_user_source`: delete the row a lookup finds, if any. */
    method DeleteUserSource(userId: string, sourceId: string, title: string) returns (removed: bool)
      modifies this
      ensures var d := Deleted(old(State()), userId, sourceId, title);
        removed == d.removed && State() == d.table
    {
      var found := MatchIndex(State(), userId, sourceId, title);
      if found.None? {
        return false;
      }
      var i := found.value;
      rows := rows[..i] + rows[i + 1..];
      removed := true;
    }

    /** `upsert_user_source`: refresh `updated_at` of the existing row, or create one. */
    method UpsertUserSource(userId: string, sourceId: string, title: string, now: nat, typeName: string := "pdf")
      returns (outcome: Option<(UserSource, bool)>)
      modifies this
      ensures var u := Upserted(old(State()), userId, sourceId, title, now, typeName);
        (u.UpsertRaised? ==> outcome.None? && State() == old(State()))
        && (u.UpsertDone? ==> outcome == Some((u.row, u.isNew)) && State() == u.table)
    {
      var existing := MatchIndex(State(), userId, sourceId, title);
      if existing.Some? {
        var i := existing.value;
        var row := rows[i].(updatedAt := now);
        rows := rows[i := row];
        return Some((row, false));
      }
      var created := CreateUserSource(userId, sourceId, title, typeName, now);
      if created.None? {
        return None;
      }
      outcome := Some((created.value, true));
    }
  }
}
