/**
 * The table registry and the database bootstrap.
 *
 * Record-type files append a table definition to a package-level list while the
 * program starts; the bootstrap then walks the list in order and registers every
 * definition with the object-relational mapper, giving each its table name, its
 * record type and its key column (the key defaults to `Id`), with the key
 * auto-incremented. Opening the database and creating the tables are done by a
 * foreign library and are inputs here: either may fail, and a failure is fatal.
 */
module Db {

  /** The Go type of the record stored in a table (an opaque descriptor). */
  datatype RecordType = RecordType(goType: string)

  /** A table definition in the registry. */
  datatype DbTable = DbTable(tableName: string, obj: RecordType, key: string)

  /** One registration handed to the mapper: table, record type, key column and
      whether the key is auto-incremented. */
  datatype TableMapping = TableMapping(tableName: string, obj: RecordType, key: string, autoIncrement: bool)

  /** The key column used when a definition leaves its key empty. */
  const DefaultKey := "Id"

  /** The registration the bootstrap makes for one definition. */
  function Mapping(t: DbTable): (m: TableMapping)
    ensures m.key != ""
    ensures m.key == t.key || (t.key == "" && m.key == DefaultKey)
  {
    TableMapping(t.tableName, t.obj, if t.key == "" then DefaultKey else t.key, true)
  }

  /** The registrations of a whole registry, in list order. */
  function Bootstrap(tables: seq<DbTable>): (r: seq<TableMapping>)
    ensures |r| == |tables|
  {
    if tables == [] then [] else Bootstrap(tables[..|tables| - 1]) + [Mapping(tables[|tables| - 1])]
  }

  /** A package-level table list that `init` functions append to. */
  class TableRegistry {
    var tables: seq<DbTable>

    constructor ()
      ensures tables == []
    {
      tables := [];
    }

    /** `tables = append(tables, t)` */
    method Append(t: DbTable)
      modifies this
      ensures tables == old(tables) + [t]
    {
      tables := tables + [t];
    }
  }

  /** Why the bootstrap stopped the program. */
  datatype Fatal = OpenFailed | CreateTablesFailed

  datatype Outcome = Ready(mappings: seq<TableMapping>) | Stopped(reason: Fatal)

  /**
   * The bootstrap. `openFails` and `createFails` stand for the outcome of opening the
   * database and of creating the missing tables. The registry is only read.
   */
  method InitDb(registry: TableRegistry, openFails: bool, createFails: bool) returns (r: Outcome)
    ensures openFails ==> r == Stopped(OpenFailed)
    ensures !openFails && createFails ==> r == Stopped(CreateTablesFailed)
    ensures !openFails && !createFails ==> r == Ready(Bootstrap(registry.tables))
    ensures r.Ready? ==> |r.mappings| == |registry.tables|
  {
    if openFails {
      return Stopped(OpenFailed);
    }
    var mappings: seq<TableMapping> := [];
    var i := 0;
    while i < |registry.tables|
      invariant 0 <= i <= |registry.tables|
      invariant mappings == Bootstrap(registry.tables[..i])
    {
      var v := registry.tables[i];
      var keyName := v.key;
      if keyName == "" {
        keyName := DefaultKey;
      }
      mappings := mappings + [TableMapping(v.tableName, v.obj, keyName, true)];
      assert registry.tables[..i + 1][..i] == registry.tables[..i];
      i := i + 1;
    }
    assert registry.tables[..i] == registry.tables;
    if createFails {
      return Stopped(CreateTablesFailed);
    }
    r := Ready(mappings);
  }

  // ----- properties of the bootstrap -----

  /** The i-th registration is made for the i-th definition: same table name, same
      record type, the key resolved, the key auto-incremented. */
  lemma {:induction false} BootstrapAt(tables: seq<DbTable>, i: nat)
    requires i < |tables|
    ensures Bootstrap(tables)[i] == Mapping(tables[i])
    ensures Bootstrap(tables)[i].tableName == tables[i].tableName
    ensures Bootstrap(tables)[i].obj == tables[i].obj
    ensures Bootstrap(tables)[i].autoIncrement
  {
    if i < |tables| - 1 {
      BootstrapAt(tables[..|tables| - 1], i);
    }
  }

  /** A definition appended later is registered after all earlier ones, which are
      registered as before. */
  lemma BootstrapAppend(tables: seq<DbTable>, t: DbTable)
    ensures Bootstrap(tables + [t]) == Bootstrap(tables) + [Mapping(t)]
  {
    assert (tables + [t])[..|tables|] == tables;
  }

  /** Every registration has a non-empty key: a non-empty key is kept, an empty one
      becomes `Id`. */
  lemma {:induction false} BootstrapKeys(tables: seq<DbTable>)
    ensures forall i :: 0 <= i < |tables| ==>
              Bootstrap(tables)[i].key == (if tables[i].key == "" then DefaultKey else tables[i].key)
  {
    forall i | 0 <= i < |tables|
      ensures Bootstrap(tables)[i].key == (if tables[i].key == "" then DefaultKey else tables[i].key)
    {
      BootstrapAt(tables, i);
    }
  }

  /** There is no duplicate check: two definitions with the same table name are both
      registered, each at its own position. */
  lemma DuplicatesRegistered(tables: seq<DbTable>, i: nat, j: nat)
    requires i < j < |tables| && tables[i].tableName == tables[j].tableName
    ensures Bootstrap(tables)[i].tableName == Bootstrap(tables)[j].tableName == tables[i].tableName
    ensures Bootstrap(tables)[i] == Mapping(tables[i]) && Bootstrap(tables)[j] == Mapping(tables[j])
  {
    BootstrapAt(tables, i);
    BootstrapAt(tables, j);
  }
}
