/** The billing key records and their table definition. */
module Billkey {

  import opened Db

  const TableBillkey := "billkey"

  const BillkeyModel := RecordType("BillkeyModel")

  const BillkeyTable := DbTable(TableBillkey, BillkeyModel, "Id")

  /** The `init` of the file: `dbTables = append(dbTables, ...)`. */
  method Init(registry: TableRegistry)
    modifies registry
    ensures registry.tables == old(registry.tables) + [BillkeyTable]
  {
    registry.Append(BillkeyTable);
  }

  /** The bootstrap registers the definition last, keyed by `Id` as written (the
      default is not needed), after the earlier registrations which are unchanged. */
  lemma BillkeyBootstrap(before: seq<DbTable>)
    ensures Bootstrap(before + [BillkeyTable]) ==
              Bootstrap(before) + [TableMapping("billkey", BillkeyModel, "Id", true)]
    ensures BillkeyTable.key != ""
  {
    BootstrapAppend(before, BillkeyTable);
  }
}
