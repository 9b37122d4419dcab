/** How an equipment item's status follows from the repair and write-off tables: the
    derivation the equipment listing computes on every load, the value the repair window's
    synchronizer caches in `equipment.status`, and how table changes move both. */
module Status {
  import opened Common
  import opened Schema

  /** Some write-off act names equipment e. */
  predicate HasWriteOff(writeOffs: map<Id, WriteOffAct>, e: Id)
  {
    exists id :: id in writeOffs && writeOffs[id].equipmentId == e
  }

  /** Some repair of equipment e is in progress. */
  predicate HasActiveRepair(repairs: map<Id, Repair>, e: Id)
  {
    exists id :: id in repairs && repairs[id].equipmentId == e && repairs[id].status == InProgress
  }

  /** The status the repair table alone gives e. */
  function RepairDrivenStatus(repairs: map<Id, Repair>, e: Id): EquipmentStatus
  {
    if HasActiveRepair(repairs, e) then UnderRepair else Operational
  }

  /** The equipment listing's CASE, in priority order: written off if any write-off act
      names e, whatever its repairs; otherwise under repair exactly when one of its repairs
      is in progress; otherwise operational. */
  function DerivedStatus(writeOffs: map<Id, WriteOffAct>, repairs: map<Id, Repair>, e: Id): (s: EquipmentStatus)
    ensures s == WrittenOff <==> HasWriteOff(writeOffs, e)
    ensures !HasWriteOff(writeOffs, e) ==> (s == UnderRepair <==> HasActiveRepair(repairs, e))
    ensures s == Operational <==> !HasWriteOff(writeOffs, e) && !HasActiveRepair(repairs, e)
  {
    if HasWriteOff(writeOffs, e) then WrittenOff else RepairDrivenStatus(repairs, e)
  }

  /** The rows the synchronizer's `SELECT COUNT(*)` counts: e's repairs in progress. */
  function ActiveRepairs(repairs: map<Id, Repair>, e: Id): set<Id>
  {
    set id | id in repairs && repairs[id].equipmentId == e && repairs[id].status == InProgress
  }

  /** The count is positive exactly when the derivation's EXISTS holds. */
  lemma ActiveCountPositive(repairs: map<Id, Repair>, e: Id)
    ensures |ActiveRepairs(repairs, e)| > 0 <==> HasActiveRepair(repairs, e)
  {
    if HasActiveRepair(repairs, e) {
      var id :| id in repairs && repairs[id].equipmentId == e && repairs[id].status == InProgress;
      assert id in ActiveRepairs(repairs, e);
    } else {
      assert forall id :: id !in ActiveRepairs(repairs, e);
      assert ActiveRepairs(repairs, e) == {};
    }
  }

  /** The value `update_equipment_status(e, statusName)` writes: under repair straight away
      when the status passed in is "in progress", otherwise under repair if e still has a
      repair in progress and operational if not. It never writes "written off". */
  function SyncValue(repairs: map<Id, Repair>, e: Id, statusName: string): (v: EquipmentStatus)
    ensures v != WrittenOff
    ensures v == UnderRepair <==> statusName == InProgress.Name() || HasActiveRepair(repairs, e)
  {
    if statusName == InProgress.Name() then UnderRepair
    else
      ActiveCountPositive(repairs, e);
      if |ActiveRepairs(repairs, e)| > 0 then UnderRepair else Operational
  }

  /** Where the status passed in is true of the repair table (as at every call site), the
      synchronizer writes the repair-driven status; it agrees with the derivation exactly
      when no write-off act names the equipment. */
  lemma SyncAgreement(writeOffs: map<Id, WriteOffAct>, repairs: map<Id, Repair>, e: Id, statusName: string)
    requires statusName == InProgress.Name() ==> HasActiveRepair(repairs, e)
    ensures SyncValue(repairs, e, statusName) == RepairDrivenStatus(repairs, e)
    ensures SyncValue(repairs, e, statusName) == DerivedStatus(writeOffs, repairs, e) <==> !HasWriteOff(writeOffs, e)
  {
  }

  /** A second synchronization of the same equipment with the same status over the same
      repairs stores what the first stored. */
  lemma SyncIdempotent(equipment: map<Id, Equipment>, repairs: map<Id, Repair>, e: Id, statusName: string)
    ensures var once := WithStatus(equipment, e, SyncValue(repairs, e, statusName));
      WithStatus(once, e, SyncValue(repairs, e, statusName)) == once
  {
  }

  /** Removing e's repairs leaves e no repair at all, and leaves the derived status of
      every other equipment item as it was. */
  lemma {:induction false} CascadeEffect(writeOffs: map<Id, WriteOffAct>, repairs: map<Id, Repair>, e: Id)
    ensures forall id :: id in RepairsWithout(repairs, e) ==> RepairsWithout(repairs, e)[id].equipmentId != e
    ensures forall other :: other != e ==>
      DerivedStatus(writeOffs, RepairsWithout(repairs, e), other) == DerivedStatus(writeOffs, repairs, other)
  {
    var rest := RepairsWithout(repairs, e);
    forall other | other != e
      ensures HasActiveRepair(rest, other) == HasActiveRepair(repairs, other)
    {
      if HasActiveRepair(repairs, other) {
        var id :| id in repairs && repairs[id].equipmentId == other && repairs[id].status == InProgress;
        assert id in rest;
      }
    }
  }

  /** Inserting or editing a write-off act makes its equipment written off, whatever the
      repairs. No other equipment item changes derived status, except the one an edited
      act named before. */
  lemma {:induction false} WriteOffPutEffect(writeOffs: map<Id, WriteOffAct>, repairs: map<Id, Repair>, id: Id, act: WriteOffAct)
    ensures DerivedStatus(writeOffs[id := act], repairs, act.equipmentId) == WrittenOff
    ensures forall other :: other != act.equipmentId && (id !in writeOffs || writeOffs[id].equipmentId != other) ==>
      DerivedStatus(writeOffs[id := act], repairs, other) == DerivedStatus(writeOffs, repairs, other)
  {
    var after := writeOffs[id := act];
    assert id in after && after[id].equipmentId == act.equipmentId;
    forall other | other != act.equipmentId && (id !in writeOffs || writeOffs[id].equipmentId != other)
      ensures HasWriteOff(after, other) == HasWriteOff(writeOffs, other)
    {
      if HasWriteOff(writeOffs, other) {
        var w :| w in writeOffs && writeOffs[w].equipmentId == other;
        assert w in after && after[w] == writeOffs[w];
      }
    }
  }

  /** Deleting a write-off act re-derives its equipment from what remains: still written
      off if another act names it, otherwise whatever its repairs give. Every other
      equipment item keeps its derived status. */
  lemma {:induction false} WriteOffRemoveEffect(writeOffs: map<Id, WriteOffAct>, repairs: map<Id, Repair>, id: Id)
    requires id in writeOffs
    ensures var e := writeOffs[id].equipmentId;
      DerivedStatus(writeOffs - {id}, repairs, e) ==
        if exists w :: w in writeOffs && w != id && writeOffs[w].equipmentId == e then WrittenOff
        else RepairDrivenStatus(repairs, e)
    ensures forall other :: other != writeOffs[id].equipmentId ==>
      DerivedStatus(writeOffs - {id}, repairs, other) == DerivedStatus(writeOffs, repairs, other)
  {
    var after := writeOffs - {id};
    var e := writeOffs[id].equipmentId;
    if exists w :: w in writeOffs && w != id && writeOffs[w].equipmentId == e {
      var w :| w in writeOffs && w != id && writeOffs[w].equipmentId == e;
      assert w in after;
    }
    forall other | other != e
      ensures HasWriteOff(after, other) == HasWriteOff(writeOffs, other)
    {
      if HasWriteOff(writeOffs, other) {
        var w :| w in writeOffs && writeOffs[w].equipmentId == other;
        assert w in after;
      }
    }
  }

  /** Writing repair `id` only moves the derived status of its old and new equipment. */
  lemma {:induction false} RepairPutEffect(writeOffs: map<Id, WriteOffAct>, repairs: map<Id, Repair>, id: Id, repair: Repair)
    ensures repair.status == InProgress ==>
      DerivedStatus(writeOffs, repairs[id := repair], repair.equipmentId) != Operational
    ensures forall other :: other != repair.equipmentId && (id !in repairs || repairs[id].equipmentId != other) ==>
      DerivedStatus(writeOffs, repairs[id := repair], other) == DerivedStatus(writeOffs, repairs, other)
  {
    var after := repairs[id := repair];
    assert id in after && after[id] == repair;
    forall other | other != repair.equipmentId && (id !in repairs || repairs[id].equipmentId != other)
      ensures HasActiveRepair(after, other) == HasActiveRepair(repairs, other)
    {
      if HasActiveRepair(repairs, other) {
        var r :| r in repairs && repairs[r].equipmentId == other && repairs[r].status == InProgress;
        assert r in after && after[r] == repairs[r];
      }
      if HasActiveRepair(after, other) {
        var r :| r in after && after[r].equipmentId == other && after[r].status == InProgress;
        assert r != id && r in repairs;
      }
    }
  }
}
