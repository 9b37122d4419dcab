/** Whole sessions against a fresh database, driven through the window handlers, for any
    valid names, dates, prices and reasons: the equipment lifecycle the windows are built
    for, and the places where the cached `equipment.status` column and the status the
    equipment listing derives drift apart. */
module Scenarios {
  import opened Common
  import opened Text
  import opened Schema
  import opened Status
  import EquipmentWindow
  import RepairWindow
  import WriteOffWindow

  /** A database holding the given equipment and repairs and nothing else. */
  function Holding(equipment: map<Id, Equipment>, repairs: map<Id, Repair>, nextEquipment: Id, nextRepair: Id): Tables
  {
    Tables(equipment, repairs, map[], map[], map[], nextEquipment, nextRepair, 1, 1, 1)
  }

  /** A fresh database holding item 1, called name, and nothing else. */
  method OneItem(name: string) returns (db: Database)
    requires ValidName(name)
    ensures fresh(db) && db.Valid()
    ensures db.State() == Holding(map[1 := Equipment(name, None)], map[], 2, 1)
  {
    db := new Database();
    StrippedIsFixed(name);
    var e := EquipmentWindow.AddEquipment(db, name, NoFailure);
  }

  /** A fresh database in which item 1, called name, has one repair in progress. */
  method ItemUnderRepair(name: string, date: Date, price: Price) returns (db: Database, added: EquipmentStatus)
    requires ValidName(name)
    ensures fresh(db) && db.Valid()
    ensures added == Operational
    ensures db.State() == Holding(map[1 := Equipment(name, Some(UnderRepair))], map[1 := Repair(1, date, price, InProgress)], 2, 2)
  {
    db := OneItem(name);
    added := DerivedStatus(db.writeOffs, db.repairs, 1);
    StatusNameRoundTrip(InProgress);
    var rep := RepairWindow.AddRepair(db, Some(1), Some(date), price, InProgress.Name(), NoFailure);
    assert rep == Ok(1);
  }

  /** A fresh database with items 1 and 2, of which item 1 has one repair in progress. */
  method FirstOfTwoUnderRepair(first: string, second: string, date: Date, price: Price) returns (db: Database)
    requires ValidName(first) && ValidName(second)
    ensures fresh(db) && db.Valid()
    ensures db.State() == Holding(map[1 := Equipment(first, Some(UnderRepair)), 2 := Equipment(second, None)],
                                  map[1 := Repair(1, date, price, InProgress)], 3, 2)
  {
    var added;
    db, added := ItemUnderRepair(first, date, price);
    StrippedIsFixed(second);
    var b := EquipmentWindow.AddEquipment(db, second, NoFailure);
  }

  /** A new item derives as operational; an in-progress repair makes it under repair, in
      the listing and in the cached column; marking the repair completed returns it to
      operational in both. */
  method RepairLifecycle(name: string, date: Date, price: Price)
    returns (added: EquipmentStatus, during: EquipmentStatus, cachedDuring: Option<EquipmentStatus>,
             after: EquipmentStatus, cachedAfter: Option<EquipmentStatus>)
    requires ValidName(name)
    ensures added == Operational
    ensures during == UnderRepair && cachedDuring == Some(UnderRepair)
    ensures after == Operational && cachedAfter == Some(Operational)
  {
    var db;
    db, added := ItemUnderRepair(name, date, price);
    assert db.repairs[1].equipmentId == 1 && db.repairs[1].status == InProgress;
    during := DerivedStatus(db.writeOffs, db.repairs, 1);
    cachedDuring := db.equipment[1].status;

    StatusNameRoundTrip(Completed);
    assert Completed.Name()[0] != InProgress.Name()[0];
    var edit := RepairWindow.UpdateRepair(db, 1, Some(1), Some(date), price, Completed.Name(), NoFailure);
    assert edit.Ok?;
    assert db.repairs.Keys == {1} && db.repairs[1].status == Completed;
    assert !HasActiveRepair(db.repairs, 1);
    after := DerivedStatus(db.writeOffs, db.repairs, 1);
    cachedAfter := db.equipment[1].status;
  }

  /** An item under repair gets a write-off act: it derives as written off, so renaming it
      is refused. Deleting the act brings back the status its repair gives it, without
      any synchronization call. */
  method WriteOffLocksAndReleases(name: string, newName: string, date: Date, price: Price, reason: string)
    returns (locked: EquipmentStatus, rename: Reply<()>, released: EquipmentStatus)
    requires ValidName(name) && reason != ""
    ensures locked == WrittenOff
    ensures rename == Rejected(WrittenOffLocked)
    ensures released == UnderRepair
  {
    var db, _ := ItemUnderRepair(name, date, price);
    var act := WriteOffWindow.AddWriteOff(db, Some(1), Some(date), reason, NoFailure);
    locked := DerivedStatus(db.writeOffs, db.repairs, 1);
    rename := EquipmentWindow.UpdateEquipment(db, 1, newName, NoFailure);

    var gone := WriteOffWindow.DeleteWriteOff(db, act.value, NoFailure);
    assert db.writeOffs == map[];
    assert db.repairs[1].equipmentId == 1 && db.repairs[1].status == InProgress;
    released := DerivedStatus(db.writeOffs, db.repairs, 1);
  }

  /** Moving an in-progress repair to another item while completing it synchronizes only
      the new item: the old one keeps "under repair" in its cached column although it now
      derives as operational. */
  method MovedRepairLeavesOldCache(first: string, second: string, date: Date, price: Price)
    returns (cachedOld: Option<EquipmentStatus>, derivedOld: EquipmentStatus)
    requires ValidName(first) && ValidName(second)
    ensures cachedOld == Some(UnderRepair)
    ensures derivedOld == Operational
  {
    var db := FirstOfTwoUnderRepair(first, second, date, price);
    StatusNameRoundTrip(Completed);
    assert Completed.Name()[0] != InProgress.Name()[0];
    var edit := RepairWindow.UpdateRepair(db, 1, Some(2), Some(date), price, Completed.Name(), NoFailure);
    assert edit.Ok?;
    assert db.repairs.Keys == {1} && db.repairs[1].equipmentId == 2;
    assert !HasActiveRepair(db.repairs, 1);
    cachedOld := db.equipment[1].status;
    derivedOld := DerivedStatus(db.writeOffs, db.repairs, 1);
  }

  /** Moving an in-progress repair to another item without changing its status runs no
      synchronization at all: the new item derives as under repair while its cached column
      still holds the default it was inserted with. */
  method UnchangedStatusSkipsSync(first: string, second: string, date: Date, price: Price)
    returns (cachedNew: Option<EquipmentStatus>, derivedNew: EquipmentStatus)
    requires ValidName(first) && ValidName(second)
    ensures cachedNew == None
    ensures derivedNew == UnderRepair
  {
    var db := FirstOfTwoUnderRepair(first, second, date, price);
    StatusNameRoundTrip(InProgress);
    var edit := RepairWindow.UpdateRepair(db, 1, Some(2), Some(date), price, InProgress.Name(), NoFailure);
    assert db.repairs[1].equipmentId == 2 && db.repairs[1].status == InProgress;
    cachedNew := db.equipment[2].status;
    derivedNew := DerivedStatus(db.writeOffs, db.repairs, 2);
  }

  /** The repair window commits every statement on its own: when the synchronizer's UPDATE
      (statement 4 of `add_repair`) fails, the repair is kept and reported as added, but
      the cached column is never written. */
  method SyncFailureKeepsRepair(name: string, date: Date, price: Price)
    returns (added: Reply<Id>, cached: Option<EquipmentStatus>, derived: EquipmentStatus)
    requires ValidName(name)
    ensures added.Ok?
    ensures cached == None
    ensures derived == UnderRepair
  {
    var db := new Database();
    StrippedIsFixed(name);
    StatusNameRoundTrip(InProgress);
    var e := EquipmentWindow.AddEquipment(db, name, NoFailure);
    added := RepairWindow.AddRepair(db, Some(e.value), Some(date), price, InProgress.Name(), FailsAt(4));
    assert db.repairs[added.value].equipmentId == e.value && db.repairs[added.value].status == InProgress;
    cached := db.equipment[e.value].status;
    derived := DerivedStatus(db.writeOffs, db.repairs, e.value);
  }

  /** The synchronizer ignores write-off acts: a repair added to a written-off item caches
      "under repair" for it, while the listing keeps showing it written off. */
  method SyncOverwritesWrittenOff(name: string, date: Date, price: Price, reason: string)
    returns (cached: Option<EquipmentStatus>, derived: EquipmentStatus)
    requires ValidName(name) && reason != ""
    ensures cached == Some(UnderRepair)
    ensures derived == WrittenOff
  {
    var db := new Database();
    StrippedIsFixed(name);
    StatusNameRoundTrip(InProgress);
    var e := EquipmentWindow.AddEquipment(db, name, NoFailure);
    var act := WriteOffWindow.AddWriteOff(db, Some(e.value), Some(date), reason, NoFailure);
    var rep := RepairWindow.AddRepair(db, Some(e.value), Some(date), price, InProgress.Name(), NoFailure);
    assert db.writeOffs[act.value].equipmentId == e.value;
    cached := db.equipment[e.value].status;
    derived := DerivedStatus(db.writeOffs, db.repairs, e.value);
  }
}
