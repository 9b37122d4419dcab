/** The repair window. Its connection runs in autocommit, so every statement is kept as soon
    as it runs: a later failure in the same handler undoes nothing. After writing a repair
    it calls the synchronizer, which caches a status in `equipment.status` and swallows its
    own failures. */
module RepairWindow {
  import opened Common
  import opened Ordering
  import opened Schema
  import opened Status

  /** `load_repair_statuses`: the names read from `repairstatus`, or, when that query
      fails, the three names in the order of their identifiers. */
  function StatusChoices(loaded: Option<seq<string>>): (choices: seq<string>)
    ensures loaded.Some? ==> choices == loaded.value
    ensures loaded.None? ==>
      && |choices| == 3
      && (forall i :: 0 <= i < 3 ==> StatusNamed(choices[i]).Some?)
      && (forall s: RepairStatus :: s.Name() in choices)
      && StatusNamed(choices[0]) == Some(Completed)
      && StatusNamed(choices[1]) == Some(InProgress)
      && StatusNamed(choices[2]) == Some(Cancelled)
  {
    match loaded
    case Some(names) => names
    case None =>
      StatusNameRoundTrip(Completed);
      StatusNameRoundTrip(InProgress);
      StatusNameRoundTrip(Cancelled);
      [Completed.Name(), InProgress.Name(), Cancelled.Name()]
  }

  /** Whether a synchronizer call fails: its COUNT (statement 1, run only when the status
      passed in is not "in progress") or its UPDATE (statement 2). */
  predicate SyncFails(statusName: string, failure: Failure)
  {
    (statusName != InProgress.Name() && FailsWithin(failure, 1, 1)) || FailsWithin(failure, 2, 2)
  }

  /** `update_equipment_status`: caches `SyncValue` as the status of equipment e and
      answers true, or answers false with nothing written when a statement fails. Only
      the status of e changes. */
  method UpdateEquipmentStatus(db: Database, e: Id, statusName: string, failure: Failure) returns (ok: bool)
    requires db.Valid()
    modifies db
    ensures db.Valid()
    ensures ok <==> !SyncFails(statusName, failure)
    ensures ok ==> db.State() == old(db.State()).(equipment := WithStatus(old(db.equipment), e, SyncValue(old(db.repairs), e, statusName)))
    ensures !ok ==> db.State() == old(db.State())
  {
    var v: EquipmentStatus;
    if statusName == InProgress.Name() {
      v := UnderRepair;
    } else {
      if FailsWithin(failure, 1, 1) {
        return false;
      }
      var active := |ActiveRepairs(db.repairs, e)|;  // SELECT COUNT(*)
      v := if active > 0 then UnderRepair else Operational;
    }
    if FailsWithin(failure, 2, 2) {
      return false;
    }
    db.StoreStatus(e, v);
    ok := true;
  }

  /** Synchronizing the same equipment item twice with the same status name, with no
      failure, leaves the database as the first synchronization left it. */
  method SyncTwice(db: Database, e: Id, statusName: string)
    requires db.Valid()
    modifies db
    ensures db.Valid()
    ensures db.State() == old(db.State()).(equipment := WithStatus(old(db.equipment), e, SyncValue(old(db.repairs), e, statusName)))
  {
    var first := UpdateEquipmentStatus(db, e, statusName, NoFailure);
    var afterFirst := db.State();
    var second := UpdateEquipmentStatus(db, e, statusName, NoFailure);
    SyncIdempotent(old(db.equipment), old(db.repairs), e, statusName);
    assert db.State() == afterFirst;
  }

  /** What the repair window asks of its form: an equipment item, a date and a status name. */
  predicate FormComplete(equipId: Option<Id>, date: Option<Date>, statusName: string)
  {
    equipId.Some? && date.Some? && statusName != ""
  }

  /** `add_repair`. An incomplete form is refused. Then the status name is looked up
      (statement 1; an unknown name fails), the repair is inserted (statement 2) and the
      synchronizer runs for its equipment with its status (statements 3 and 4). A failed
      synchronization is not reported: the repair stays and the cached status is left as
      it was. */
  method AddRepair(db: Database, equipId: Option<Id>, date: Option<Date>, price: Price, statusName: string, failure: Failure)
    returns (r: Reply<Id>)
    requires db.Valid()
    requires equipId.Some? ==> db.IssuedEquipment(equipId.value)
    modifies db
    ensures db.Valid()
    ensures r.Rejected? <==> !FormComplete(equipId, date, statusName)
    ensures r.Rejected? ==> r.why == MissingField
    ensures r.Ok? <==>
      FormComplete(equipId, date, statusName) && StatusNamed(statusName).Some? && !FailsWithin(failure, 1, 2)
    ensures !r.Ok? ==> db.State() == old(db.State())
    ensures r.Ok? ==>
      var row := Repair(equipId.value, date.value, price, StatusNamed(statusName).value);
      var repairs := old(db.repairs)[r.value := row];
      && r.value == old(db.nextRepairId) && r.value !in old(db.repairs)
      && db.State() == old(db.State()).(
           repairs := repairs,
           nextRepairId := r.value + 1,
           equipment := if SyncFails(statusName, After(failure, 2)) then old(db.equipment)
                        else WithStatus(old(db.equipment), row.equipmentId, SyncValue(repairs, row.equipmentId, statusName)))
  {
    if !FormComplete(equipId, date, statusName) {
      return Rejected(MissingField);
    }
    var status := StatusNamed(statusName);
    if FailsWithin(failure, 1, 1) || status.None? {
      return Failed;  // `fetchone()` found no row, or the SELECT failed
    }
    if FailsWithin(failure, 2, 2) {
      return Failed;
    }
    var id := db.InsertRepair(Repair(equipId.value, date.value, price, status.value));
    var _ := UpdateEquipmentStatus(db, equipId.value, statusName, After(failure, 2));
    r := Ok(id);
  }

  /** `update_repair`. An incomplete form is refused. Then the new status name is looked
      up (statement 1), the old status of the repair is read (statement 2; a repair that
      is gone fails), and all four fields are overwritten (statement 3). Only when the
      status name changed is the synchronizer run (statements 4 and 5), and only for the
      new equipment item: the equipment the repair was moved away from keeps whatever
      status was cached for it. */
  method UpdateRepair(db: Database, id: Id, equipId: Option<Id>, date: Option<Date>, price: Price, statusName: string, failure: Failure)
    returns (r: Reply<()>)
    requires db.Valid()
    requires equipId.Some? ==> db.IssuedEquipment(equipId.value)
    modifies db
    ensures db.Valid()
    ensures r.Rejected? <==> !FormComplete(equipId, date, statusName)
    ensures r.Rejected? ==> r.why == MissingField
    ensures r.Ok? <==>
      FormComplete(equipId, date, statusName) && StatusNamed(statusName).Some?
      && id in old(db.repairs) && !FailsWithin(failure, 1, 3)
    ensures !r.Ok? ==> db.State() == old(db.State())
    ensures r.Ok? ==>
      var row := Repair(equipId.value, date.value, price, StatusNamed(statusName).value);
      var repairs := old(db.repairs)[id := row];
      var resync := old(db.repairs)[id].status.Name() != statusName && !SyncFails(statusName, After(failure, 3));
      db.State() == old(db.State()).(
        repairs := repairs,
        equipment := if resync then WithStatus(old(db.equipment), row.equipmentId, SyncValue(repairs, row.equipmentId, statusName))
                     else old(db.equipment))
  {
    if !FormComplete(equipId, date, statusName) {
      return Rejected(MissingField);
    }
    var status := StatusNamed(statusName);
    if FailsWithin(failure, 1, 1) || status.None? {
      return Failed;
    }
    if FailsWithin(failure, 2, 2) || id !in db.repairs {
      return Failed;
    }
    var oldStatus := db.repairs[id].status.Name();
    if FailsWithin(failure, 3, 3) {
      return Failed;
    }
    db.OverwriteRepair(id, Repair(equipId.value, date.value, price, status.value));
    if oldStatus != statusName {
      var _ := UpdateEquipmentStatus(db, equipId.value, statusName, After(failure, 3));
    }
    r := Ok(());
  }

  /** `delete_repair`. Reads the status of the repair (statement 1; a repair that is gone
      fails), deletes that one row (statement 2), and only when the deleted repair was in
      progress runs the synchronizer for its equipment with "completed" (statements 3
      and 4), which recounts the repairs still in progress. */
  method DeleteRepair(db: Database, id: Id, failure: Failure) returns (r: Reply<()>)
    requires db.Valid()
    modifies db
    ensures db.Valid()
    ensures !r.Rejected?
    ensures r.Ok? <==> id in old(db.repairs) && !FailsWithin(failure, 1, 2)
    ensures !r.Ok? ==> db.State() == old(db.State())
    ensures r.Ok? ==>
      var e := old(db.repairs)[id].equipmentId;
      var repairs := old(db.repairs) - {id};
      var resync := old(db.repairs)[id].status == InProgress && !SyncFails(Completed.Name(), After(failure, 2));
      db.State() == old(db.State()).(
        repairs := repairs,
        equipment := if resync then WithStatus(old(db.equipment), e, RepairDrivenStatus(repairs, e))
                     else old(db.equipment))
  {
    if FailsWithin(failure, 1, 1) || id !in db.repairs {
      return Failed;
    }
    var status := db.repairs[id].status.Name();
    var e := db.repairs[id].equipmentId;
    if FailsWithin(failure, 2, 2) {
      return Failed;
    }
    db.DeleteRepair(id);
    if status == InProgress.Name() {
      SyncAgreement(db.writeOffs, db.repairs, e, Completed.Name());
      var _ := UpdateEquipmentStatus(db, e, Completed.Name(), After(failure, 2));
    }
    r := Ok(());
  }

  /** One row of the repair listing: the equipment name comes from a LEFT JOIN, so it is
      absent when the equipment row is gone. */
  datatype RepairRow = RepairRow(id: Id, equipmentId: Id, equipmentName: Option<string>, date: Date, price: Price, status: RepairStatus)

  function RepairRowOf(equipment: map<Id, Equipment>, repairs: map<Id, Repair>, id: Id): RepairRow
    requires id in repairs
  {
    var rep := repairs[id];
    RepairRow(id, rep.equipmentId,
              if rep.equipmentId in equipment then Some(equipment[rep.equipmentId].name) else None,
              rep.date, rep.price, rep.status)
  }

  /** `load_data`: one row per repair, latest date first (`ORDER BY r.repairdate DESC`),
      with the equipment name joined in. */
  function Listing(equipment: map<Id, Equipment>, repairs: map<Id, Repair>): (rows: seq<RepairRow>)
    ensures multiset(Keys(rows, (row: RepairRow) => row.id)) == multiset(repairs.Keys)
    ensures forall i :: 0 <= i < |rows| ==> rows[i].id in repairs && rows[i] == RepairRowOf(equipment, repairs, rows[i].id)
    ensures forall i, j :: 0 <= i < j < |rows| ==> rows[i].date >= rows[j].date
  {
    var ids := LatestFirst(repairs.Keys, id => if id in repairs then repairs[id].date else 0);
    var rows := seq(|ids|, i requires 0 <= i < |ids| => RepairRowOf(equipment, repairs, ids[i]));
    assert Keys(rows, (row: RepairRow) => row.id) == ids;
    rows
  }
}
