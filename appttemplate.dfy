/** The appointment template records and their table definition. */
module ApptTemplate {

  import opened Db

  const TableApptTemplate := "appttemplate"

  const AppointmentTemplateModel := RecordType("AppointmentTemplateModel")

  const ApptTemplateTable := DbTable(TableApptTemplate, AppointmentTemplateModel, "Id")

  /** The `init` of the file: `dbTables = append(dbTables, ...)`. */
  method Init(registry: TableRegistry)
    modifies registry
    ensures registry.tables == old(registry.tables) + [ApptTemplateTable]
  {
    registry.Append(ApptTemplateTable);
  }

  /** The bootstrap registers the definition last, keyed by `Id` as written (the
      default is not needed), after the earlier registrations which are unchanged. */
  lemma ApptTemplateBootstrap(before: seq<DbTable>)
    ensures Bootstrap(before + [ApptTemplateTable]) ==
              Bootstrap(before) + [TableMapping("appttemplate", AppointmentTemplateModel, "Id", true)]
    ensures ApptTemplateTable.key != ""
  {
    BootstrapAppend(before, ApptTemplateTable);
  }
}
