/**
 * Program start-up of the main package: the table list starts empty, the `init`
 * functions of the table files run in file-name order, then the bootstrap walks
 * the list.
 */
module Startup {

  import opened Db
  import ApptTemplate
  import Billkey

  /** Start-up with the two table files of this model. */
  method StartMain(openFails: bool, createFails: bool) returns (r: Outcome)
    ensures openFails ==> r == Stopped(OpenFailed)
    ensures !openFails && createFails ==> r == Stopped(CreateTablesFailed)
    ensures !openFails && !createFails ==> r == Ready([
              TableMapping("appttemplate", ApptTemplate.AppointmentTemplateModel, "Id", true),
              TableMapping("billkey", Billkey.BillkeyModel, "Id", true)])
  {
    var dbTables := new TableRegistry();
    ApptTemplate.Init(dbTables);
    Billkey.Init(dbTables);
    ApptTemplate.ApptTemplateBootstrap([]);
    Billkey.BillkeyBootstrap([ApptTemplate.ApptTemplateTable]);
    r := InitDb(dbTables, openFails, createFails);
  }
}
