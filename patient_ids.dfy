/**
 * The patient identifier records: their table definition, registered in the model
 * package's own table list, and their EMR module, registered under the empty key.
 */
module PatientIds {

  import opened Db
  import opened EmrModules

  const TablePatientId := "patient_ids"
  const ModulePatientId := ""

  const PatientIdModel := RecordType("PatientIdModel")

  const PatientIdTable := DbTable(TablePatientId, PatientIdModel, "Id")

  const PatientIdModule := EmrModuleType(ModulePatientId, PatientIdModel)

  /** The `init` of the file: one table definition and one module entry. */
  method Init(tables: TableRegistry, modules: EmrModuleRegistry)
    modifies tables, modules
    ensures tables.tables == old(tables.tables) + [PatientIdTable]
    ensures modules.modules == old(modules.modules)[ModulePatientId := PatientIdModule]
  {
    tables.Append(PatientIdTable);
    modules.Put(ModulePatientId, PatientIdModule);
  }

  /** The table list grows by exactly one definition, for `patient_ids` keyed by `Id`,
      and the earlier definitions stay in place. */
  lemma TableRegistration(before: seq<DbTable>)
    ensures |before + [PatientIdTable]| == |before| + 1
    ensures (before + [PatientIdTable])[..|before|] == before
    ensures (before + [PatientIdTable])[|before|].tableName == "patient_ids"
    ensures (before + [PatientIdTable])[|before|].key == "Id"
  {
  }

  /** Once walked by a bootstrap, the definition is registered last, keyed by `Id`
      as written, after the earlier registrations which are unchanged. */
  lemma PatientIdBootstrap(before: seq<DbTable>)
    ensures Bootstrap(before + [PatientIdTable]) ==
              Bootstrap(before) + [TableMapping("patient_ids", PatientIdModel, "Id", true)]
  {
    BootstrapAppend(before, PatientIdTable);
  }

  /** The module map gains, or has overwritten, the entry under the empty key, whose
      name is that key; every other key keeps its entry. */
  lemma ModuleRegistration(before: map<string, EmrModuleType>)
    ensures "" in before[ModulePatientId := PatientIdModule]
    ensures before[ModulePatientId := PatientIdModule][""].name == ""
    ensures before[ModulePatientId := PatientIdModule][""].recordType == PatientIdModel
    ensures forall key :: key != "" ==>
              (key in before[ModulePatientId := PatientIdModule] <==> key in before)
    ensures forall key :: key != "" && key in before ==>
              before[ModulePatientId := PatientIdModule][key] == before[key]
  {
  }
}
