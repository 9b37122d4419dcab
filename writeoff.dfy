/** The write-off act window. Each handler runs one statement and a COMMIT, and rolls back
    when either fails. Write-off acts are what makes equipment written off: no handler here
    writes the equipment or repair tables, the status follows through the derivation. */
module WriteOffWindow {
  import opened Common
  import opened Ordering
  import opened Schema
  import opened Status

  /** What the window asks of its form: an equipment item, a date and a reason. The reason
      is taken as typed, so only the empty string is missing. */
  predicate FormComplete(equipId: Option<Id>, date: Option<Date>, reason: string)
  {
    equipId.Some? && date.Some? && reason != ""
  }

  /** `add_writeoff`: an incomplete form is refused; otherwise the act is inserted
      (statement 1) and committed (statement 2). A failed COMMIT rolls the act back, but
      the serial keeps the number it handed out. A committed act makes its equipment
      written off and leaves every other item's derived status as it was. */
  method AddWriteOff(db: Database, equipId: Option<Id>, date: Option<Date>, reason: string, failure: Failure)
    returns (r: Reply<Id>)
    requires db.Valid()
    requires equipId.Some? ==> db.IssuedEquipment(equipId.value)
    modifies db
    ensures db.Valid()
    ensures r.Rejected? <==> !FormComplete(equipId, date, reason)
    ensures r.Rejected? ==> r.why == MissingField
    ensures r.Ok? <==> FormComplete(equipId, date, reason) && !FailsWithin(failure, 1, 2)
    ensures r.Ok? ==>
      && r.value == old(db.nextWriteOffId) && r.value !in old(db.writeOffs)
      && db.State() == old(db.State()).(
           writeOffs := old(db.writeOffs)[r.value := WriteOffAct(equipId.value, date.value, reason)],
           nextWriteOffId := r.value + 1)
      && DerivedStatus(db.writeOffs, db.repairs, equipId.value) == WrittenOff
      && (forall other :: other != equipId.value ==>
            DerivedStatus(db.writeOffs, db.repairs, other) == DerivedStatus(old(db.writeOffs), old(db.repairs), other))
    ensures !r.Ok? ==> db.State() == old(db.State()).(nextWriteOffId := db.nextWriteOffId)
    ensures db.nextWriteOffId == if r.Ok? || (r.Failed? && FailsWithin(failure, 2, 2)) then old(db.nextWriteOffId) + 1
                                 else old(db.nextWriteOffId)
  {
    if !FormComplete(equipId, date, reason) {
      return Rejected(MissingField);
    }
    if FailsWithin(failure, 1, 1) {
      return Failed;
    }
    var saved := db.writeOffs;
    var act := WriteOffAct(equipId.value, date.value, reason);
    var id := db.InsertWriteOff(act);
    if FailsWithin(failure, 2, 2) {
      db.writeOffs := saved;  // ROLLBACK
      return Failed;
    }
    WriteOffPutEffect(saved, db.repairs, id, act);
    r := Ok(id);
  }

  /** `update_writeoff`: an incomplete form is refused; otherwise the equipment, date and
      reason of act id are overwritten (statement 1) and committed (statement 2), or
      nothing changes. The act's new equipment becomes written off; apart from it, only the
      equipment the act named before can change derived status. */
  method UpdateWriteOff(db: Database, id: Id, equipId: Option<Id>, date: Option<Date>, reason: string, failure: Failure)
    returns (r: Reply<()>)
    requires db.Valid()
    requires equipId.Some? ==> db.IssuedEquipment(equipId.value)
    modifies db
    ensures db.Valid()
    ensures r.Rejected? <==> !FormComplete(equipId, date, reason)
    ensures r.Rejected? ==> r.why == MissingField
    ensures r.Ok? <==> FormComplete(equipId, date, reason) && !FailsWithin(failure, 1, 2)
    ensures r.Ok? ==>
      db.State() == old(db.State()).(writeOffs := Overwrite(old(db.writeOffs), id, WriteOffAct(equipId.value, date.value, reason)))
    ensures r.Ok? && id in old(db.writeOffs) ==>
      && DerivedStatus(db.writeOffs, db.repairs, equipId.value) == WrittenOff
      && (forall other :: other != equipId.value && other != old(db.writeOffs)[id].equipmentId ==>
            DerivedStatus(db.writeOffs, db.repairs, other) == DerivedStatus(old(db.writeOffs), old(db.repairs), other))
    ensures !r.Ok? ==> db.State() == old(db.State())
  {
    if !FormComplete(equipId, date, reason) {
      return Rejected(MissingField);
    }
    if FailsWithin(failure, 1, 2) {
      return Failed;  // the UPDATE or the COMMIT failed: ROLLBACK leaves the table as it was
    }
    var act := WriteOffAct(equipId.value, date.value, reason);
    if id in db.writeOffs {
      WriteOffPutEffect(db.writeOffs, db.repairs, id, act);
    }
    db.OverwriteWriteOff(id, act);
    r := Ok(());
  }

  /** `delete_writeoff`: no status guard; the act is deleted (statement 1) and the deletion
      committed (statement 2), or nothing changes. Its equipment stays written off only if
      another act names it, and otherwise derives from its repairs again; no other item
      changes derived status. */
  method DeleteWriteOff(db: Database, id: Id, failure: Failure) returns (r: Reply<()>)
    requires db.Valid()
    modifies db
    ensures db.Valid()
    ensures !r.Rejected?
    ensures r.Ok? <==> !FailsWithin(failure, 1, 2)
    ensures r.Ok? ==> db.State() == old(db.State()).(writeOffs := old(db.writeOffs) - {id})
    ensures r.Ok? && id in old(db.writeOffs) ==>
      var e := old(db.writeOffs)[id].equipmentId;
      && DerivedStatus(db.writeOffs, db.repairs, e) ==
           (if exists w :: w in old(db.writeOffs) && w != id && old(db.writeOffs)[w].equipmentId == e then WrittenOff
            else RepairDrivenStatus(db.repairs, e))
      && (forall other :: other != e ==>
            DerivedStatus(db.writeOffs, db.repairs, other) == DerivedStatus(old(db.writeOffs), old(db.repairs), other))
    ensures !r.Ok? ==> db.State() == old(db.State())
  {
    if FailsWithin(failure, 1, 2) {
      return Failed;
    }
    if id in db.writeOffs {
      WriteOffRemoveEffect(db.writeOffs, db.repairs, id);
    }
    db.DeleteWriteOff(id);
    r := Ok(());
  }

  /** One row of the write-off listing; the equipment name comes from a LEFT JOIN. */
  datatype WriteOffRow = WriteOffRow(id: Id, equipmentId: Id, equipmentName: Option<string>, date: Date, reason: string)

  function WriteOffRowOf(equipment: map<Id, Equipment>, writeOffs: map<Id, WriteOffAct>, id: Id): WriteOffRow
    requires id in writeOffs
  {
    var act := writeOffs[id];
    WriteOffRow(id, act.equipmentId,
                if act.equipmentId in equipment then Some(equipment[act.equipmentId].name) else None,
                act.date, act.reason)
  }

  /** `load_data`: one row per act, latest write-off date first (`ORDER BY w.writeoffdate
      DESC`), with the equipment name joined in. */
  function Listing(equipment: map<Id, Equipment>, writeOffs: map<Id, WriteOffAct>): (rows: seq<WriteOffRow>)
    ensures multiset(Keys(rows, (row: WriteOffRow) => row.id)) == multiset(writeOffs.Keys)
    ensures forall i :: 0 <= i < |rows| ==> rows[i].id in writeOffs && rows[i] == WriteOffRowOf(equipment, writeOffs, rows[i].id)
    ensures forall i, j :: 0 <= i < j < |rows| ==> rows[i].date >= rows[j].date
  {
    var ids := LatestFirst(writeOffs.Keys, id => if id in writeOffs then writeOffs[id].date else 0);
    var rows := seq(|ids|, i requires 0 <= i < |ids| => WriteOffRowOf(equipment, writeOffs, ids[i]));
    assert Keys(rows, (row: WriteOffRow) => row.id) == ids;
    rows
  }
}
