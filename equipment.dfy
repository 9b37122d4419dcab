/** The equipment window: its listing with the derived status, and adding, renaming and
    deleting equipment. Renaming and deleting are refused while the equipment is written
    off; deleting removes the equipment's repairs first, in the same transaction. */
module EquipmentWindow {
  import opened Common
  import opened Text
  import opened Ordering
  import opened Schema
  import opened Status

  datatype EquipmentRow = EquipmentRow(id: Id, name: string, status: EquipmentStatus)

  /** `load_data`: one row per equipment item, in ascending identifier order, each showing
      the status derived from the write-off and repair tables, never the cached column. */
  function Listing(equipment: map<Id, Equipment>, repairs: map<Id, Repair>, writeOffs: map<Id, WriteOffAct>)
    : (rows: seq<EquipmentRow>)
    ensures multiset(Keys(rows, (row: EquipmentRow) => row.id)) == multiset(equipment.Keys)
    ensures forall i, j :: 0 <= i < j < |rows| ==> rows[i].id < rows[j].id
    ensures forall i :: 0 <= i < |rows| ==>
      && rows[i].id in equipment
      && rows[i].name == equipment[rows[i].id].name
      && rows[i].status == DerivedStatus(writeOffs, repairs, rows[i].id)
  {
    var ids := Ascending(equipment.Keys);
    var rows := seq(|ids|, i requires 0 <= i < |ids| =>
      EquipmentRow(ids[i], equipment[ids[i]].name, DerivedStatus(writeOffs, repairs, ids[i])));
    assert Keys(rows, (row: EquipmentRow) => row.id) == ids;
    rows
  }

  /** `add_equipment`: strips the typed name and refuses an empty one; otherwise saves it
      as a new item. The new item derives as operational, as the window shows it, since no
      repair or write-off act can name an identifier not yet handed out. */
  method AddEquipment(db: Database, input: string, failure: Failure) returns (r: Reply<Id>)
    requires db.Valid()
    modifies db
    ensures db.Valid()
    ensures r.Rejected? <==> Strip(input) == []
    ensures r.Rejected? ==> r.why == EmptyName
    ensures r.Ok? <==> Strip(input) != [] && !FailsWithin(failure, 1, 2)
    ensures r.Ok? ==>
      && r.value == old(db.nextEquipmentId)
      && r.value !in old(db.equipment)
      && db.State() == old(db.State()).(
           equipment := old(db.equipment)[r.value := Equipment(Strip(input), None)],
           nextEquipmentId := r.value + 1)
      && DerivedStatus(db.writeOffs, db.repairs, r.value) == Operational
    ensures !r.Ok? ==> db.State() == old(db.State()).(nextEquipmentId := db.nextEquipmentId)
    ensures db.nextEquipmentId == if r.Ok? || (r.Failed? && FailsWithin(failure, 2, 2)) then old(db.nextEquipmentId) + 1
                                  else old(db.nextEquipmentId)
  {
    var name := Strip(input);
    if name == [] {
      return Rejected(EmptyName);
    }
    r := SaveEquipment(db, name, failure);
  }

  /** The statements `add_equipment` runs for a non-empty stripped name: the INSERT
      (statement 1) and the COMMIT (statement 2). A failed COMMIT rolls the row back, but
      the serial keeps the number it handed out. */
  method SaveEquipment(db: Database, name: string, failure: Failure) returns (r: Reply<Id>)
    requires db.Valid() && ValidName(name)
    modifies db
    ensures db.Valid()
    ensures !r.Rejected?
    ensures r.Ok? <==> !FailsWithin(failure, 1, 2)
    ensures r.Ok? ==>
      && r.value == old(db.nextEquipmentId)
      && r.value !in old(db.equipment)
      && db.State() == old(db.State()).(
           equipment := old(db.equipment)[r.value := Equipment(name, None)],
           nextEquipmentId := r.value + 1)
      && DerivedStatus(db.writeOffs, db.repairs, r.value) == Operational
    ensures !r.Ok? ==> db.State() == old(db.State()).(nextEquipmentId := db.nextEquipmentId)
    ensures db.nextEquipmentId == if r.Ok? || FailsWithin(failure, 2, 2) then old(db.nextEquipmentId) + 1
                                  else old(db.nextEquipmentId)
  {
    if FailsWithin(failure, 1, 1) {
      return Failed;
    }
    var saved := db.equipment;
    var id := db.InsertEquipment(name);
    if FailsWithin(failure, 2, 2) {
      db.equipment := saved;  // ROLLBACK: the row goes, the serial stays advanced
      return Failed;
    }
    assert !HasWriteOff(db.writeOffs, id) && !HasActiveRepair(db.repairs, id);
    r := Ok(id);
  }

  /** The reply `update_equipment` gives: refused while written off, then refused for an
      empty stripped name, then failed when the UPDATE or COMMIT fails. */
  function EditReply(writeOffs: map<Id, WriteOffAct>, id: Id, input: string, failure: Failure): (r: Reply<()>)
    ensures r == Rejected(WrittenOffLocked) <==> HasWriteOff(writeOffs, id)
    ensures r == Rejected(EmptyName) <==> !HasWriteOff(writeOffs, id) && Strip(input) == []
    ensures r.Ok? <==> !HasWriteOff(writeOffs, id) && Strip(input) != [] && !FailsWithin(failure, 1, 2)
  {
    if HasWriteOff(writeOffs, id) then Rejected(WrittenOffLocked)
    else if Strip(input) == [] then Rejected(EmptyName)
    else if FailsWithin(failure, 1, 2) then Failed
    else Ok(())
  }

  /** `update_equipment`: refused while the equipment derives as written off, then the
      stripped name must be non-empty; the UPDATE (statement 1) and COMMIT (statement 2)
      change that row's name and nothing else (no row when the identifier is gone). */
  method UpdateEquipment(db: Database, id: Id, input: string, failure: Failure) returns (r: Reply<()>)
    requires db.Valid()
    modifies db
    ensures db.Valid()
    ensures r == EditReply(old(db.writeOffs), id, input, failure)
    ensures r.Ok? && id in old(db.equipment) ==>
      db.State() == old(db.State()).(equipment := old(db.equipment)[id := old(db.equipment)[id].(name := Strip(input))])
    ensures !(r.Ok? && id in old(db.equipment)) ==> db.State() == old(db.State())
  {
    if DerivedStatus(db.writeOffs, db.repairs, id) == WrittenOff {
      return Rejected(WrittenOffLocked);
    }
    var name := Strip(input);
    if name == [] {
      return Rejected(EmptyName);
    }
    if FailsWithin(failure, 1, 2) {
      return Failed;  // rolled back
    }
    db.RenameEquipment(id, name);
    r := Ok(());
  }

  /** `delete_equipment`: refused while the equipment derives as written off. Otherwise,
      in one transaction, deletes every repair of the equipment (statement 1), then the
      equipment row (statement 2), then commits (statement 3); a failure at any of them
      rolls both deletions back, so the tables are as they were. No other equipment item
      changes derived status. */
  method DeleteEquipment(db: Database, id: Id, failure: Failure) returns (r: Reply<()>)
    requires db.Valid()
    modifies db
    ensures db.Valid()
    ensures r == Rejected(WrittenOffLocked) <==> HasWriteOff(old(db.writeOffs), id)
    ensures r.Ok? <==> !HasWriteOff(old(db.writeOffs), id) && !FailsWithin(failure, 1, 3)
    ensures r.Ok? ==>
      && db.State() == old(db.State()).(repairs := RepairsWithout(old(db.repairs), id), equipment := old(db.equipment) - {id})
      && (forall other :: other != id ==>
            DerivedStatus(db.writeOffs, db.repairs, other) == DerivedStatus(old(db.writeOffs), old(db.repairs), other))
    ensures !r.Ok? ==> db.State() == old(db.State())
  {
    if DerivedStatus(db.writeOffs, db.repairs, id) == WrittenOff {
      return Rejected(WrittenOffLocked);
    }
    if FailsWithin(failure, 1, 3) {
      return Failed;  // ROLLBACK
    }
    CascadeEffect(db.writeOffs, db.repairs, id);
    db.DeleteRepairsOf(id);
    db.DeleteEquipment(id);
    r := Ok(());
  }
}
