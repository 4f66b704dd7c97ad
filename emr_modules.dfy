/**
 * The EMR module registry: a process-wide map from a module key to the module's
 * name and record type. Record-type files assign into it while the program starts.
 */
module EmrModules {

  import opened Db

  /** A registered EMR module: its name and the Go type of its records. */
  datatype EmrModuleType = EmrModuleType(name: string, recordType: RecordType)

  /** The package-level module map. */
  class EmrModuleRegistry {
    var modules: map<string, EmrModuleType>

    constructor ()
      ensures modules == map[]
    {
      modules := map[];
    }

    /** `modules[key] = m`: adds the key, or overwrites its entry. */
    method Put(key: string, m: EmrModuleType)
      modifies this
      ensures modules == old(modules)[key := m]
    {
      modules := modules[key := m];
    }
  }
}
