/**
  The forward-only schema migration of the raw event table, as far as it concerns the sort key:
  the version ladder, the version 4 backfill in one transaction, and the appends that follow it.
 */
module Migration {
  import opened Wrappers
  import opened SortKey

  const CURRENT_DATABASE_VERSION := 4

  datatype MigrateError =
    | UnsupportedDatabaseVersion(actual: nat)
    | TimestampParse
    | KeyRange

  /** A raw event row: what its stored RFC 3339 text parses to, and its key column. */
  datatype StoredRow = StoredRow(observedAt: Option<Instant>, observedKey: Option<string>)

  predicate Keyable(row: StoredRow) {
    row.observedAt.Some? && Sortable(row.observedAt.value)
  }

  predicate Keyed(row: StoredRow) {
    Keyable(row) && row.observedKey == Some(KeyOf(row.observedAt.value))
  }

  class Database {
    var version: nat
    var rows: map<nat, StoredRow>

    /** What a database on disk satisfies: no key before version 4, every key right from then on. */
    ghost predicate Consistent()
      reads this
    {
      && (version < 4 ==> forall id <- rows :: rows[id].observedKey == None)
      && (version == 4 ==> forall id <- rows :: Keyed(rows[id]))
    }

    /** The version 4 backfill; it works on the transaction's copy of the table. */
    static method BackfillObservedKeys(table: map<nat, StoredRow>)
      returns (r: Result<map<nat, StoredRow>, MigrateError>)
      requires forall id <- table :: table[id].observedKey == None
      ensures r.Ok? <==> forall id <- table :: Keyable(table[id])
      ensures r.Ok? ==> r.value.Keys == table.Keys
      ensures r.Ok? ==> forall id <- table :: Keyed(r.value[id]) && r.value[id].observedAt == table[id].observedAt
      ensures r.Err? ==> r.error in {TimestampParse, KeyRange}
    {
      hide FormatSortKey;
      var tx := table;
      var pending := set id | id in table && table[id].observedKey == None;
      while pending != {}
        invariant pending <= table.Keys && tx.Keys == table.Keys
        invariant forall id <- pending :: tx[id] == table[id]
        invariant forall id | id in table && id !in pending ::
            Keyed(tx[id]) && tx[id].observedAt == table[id].observedAt
      {
        var id :| id in pending;
        if tx[id].observedAt.None? { return Err(TimestampParse); }
        var key := FormatSortKey(tx[id].observedAt.value);
        if key.Err? { return Err(KeyRange); }
        tx := tx[id := tx[id].(observedKey := Some(key.value))];
        pending := pending - {id};
      }
      return Ok(tx);
    }

    /** `migrate`: succeeds exactly when the version is known and every row of an old table has a key. */
    method Migrate() returns (r: Result<(), MigrateError>)
      requires Consistent()
      modifies this
      ensures Consistent()
      ensures r.Ok? <==> old(version) <= 4 && (old(version) == 4 || forall id <- old(rows) :: Keyable(old(rows)[id]))
      ensures r.Ok? ==> version == 4 && rows.Keys == old(rows).Keys
      ensures r.Ok? ==> forall id <- rows :: Keyed(rows[id]) && rows[id].observedAt == old(rows)[id].observedAt
      ensures r.Err? ==> rows == old(rows) && version == if old(version) > 4 then old(version) else 3
    {
      if version > CURRENT_DATABASE_VERSION {
        return Err(UnsupportedDatabaseVersion(version));
      }
      if version == 0 { version := 1; }
      if version == 1 { version := 2; }
      if version == 2 { version := 3; }
      if version == 3 {
        var tx := BackfillObservedKeys(rows);
        if tx.Err? { return Err(tx.error); }
        rows, version := tx.value, CURRENT_DATABASE_VERSION;
      }
      return Ok(());
    }

    /** The key handling shared by the v1 and v2 appends: the key is written with the row, or nothing is. */
    method Append(id: nat, observedAt: Instant) returns (r: Result<bool, MigrateError>)
      requires Consistent() && version == 4
      modifies this`rows
      ensures Consistent()
      ensures r.Ok? <==> Sortable(observedAt)
      ensures r.Ok? ==> r.value == (id !in old(rows))
      ensures if r.Ok? && r.value
              then rows.Keys == old(rows).Keys + {id} && rows[id].observedAt == Some(observedAt)
                   && forall other <- old(rows) :: rows[other] == old(rows)[other]
              else rows == old(rows)
    {
      var key := FormatSortKey(observedAt);
      if key.Err? { return Err(KeyRange); }
      if id in rows { return Ok(false); }
      rows := rows[id := StoredRow(Some(observedAt), Some(key.value))];
      return Ok(true);
    }
  }
}
