/** The rows of the shared PostgreSQL schema and the store that holds them: one map from
    identifier to row per table, and the serial counter that numbers each table's new rows. */
module Schema {
  import opened Common
  import opened Text

  /** The fixed contents of the `repairstatus` table, in the order of its identifiers. */
  datatype RepairStatus = Completed | InProgress | Cancelled
  {
    /** The `statusname` the windows display and compare. */
    function Name(): string
    {
      match this
      case Completed => "Завершён"
      case InProgress => "В процессе"
      case Cancelled => "Отменён"
    }
  }

  /** `SELECT repairstatusid FROM repairstatus WHERE statusname = %s`: the status a name
      stands for, or nothing when no row carries that name. */
  function StatusNamed(name: string): (r: Option<RepairStatus>)
    ensures r.Some? ==> r.value.Name() == name
    ensures r.None? <==> forall s: RepairStatus :: s.Name() != name
  {
    if name == Completed.Name() then Some(Completed)
    else if name == InProgress.Name() then Some(InProgress)
    else if name == Cancelled.Name() then Some(Cancelled)
    else None
  }

  /** Looking a status up by its own name finds that status: the three names differ. */
  lemma {:induction false} StatusNameRoundTrip(s: RepairStatus)
    ensures StatusNamed(s.Name()) == Some(s)
  {
    match s
    case Completed =>
    case InProgress => assert InProgress.Name() != Completed.Name();
    case Cancelled => assert Cancelled.Name() != Completed.Name() && Cancelled.Name() != InProgress.Name();
  }

  /** The status shown in the equipment listing. */
  datatype EquipmentStatus = Operational | UnderRepair | WrittenOff
  {
    function Name(): string
    {
      match this
      case Operational => "Исправен"
      case UnderRepair => "На ремонте"
      case WrittenOff => "Списано"
    }
  }

  /** The upper end of the price spin box (9999999 roubles), in kopecks. */
  const MaxPrice: int := 999_999_900

  /** A repair price in kopecks, within the range the price spin box allows. */
  type Price = p: int | 0 <= p <= MaxPrice

  /** An `equipment` row. `status` is the cached column: `None` until the repair window
      first writes it, since adding equipment inserts only the name. */
  datatype Equipment = Equipment(name: string, status: Option<EquipmentStatus>)

  datatype Repair = Repair(equipmentId: Id, date: Date, price: Price, status: RepairStatus)

  datatype WriteOffAct = WriteOffAct(equipmentId: Id, date: Date, reason: string)

  datatype Supplier = Supplier(name: string)

  datatype Certificate = Certificate(equipmentId: Id, date: Date, supplierId: Id)

  /** A snapshot of the whole database: the five tables and their serial counters. */
  datatype Tables = Tables(
    equipment: map<Id, Equipment>,
    repairs: map<Id, Repair>,
    writeOffs: map<Id, WriteOffAct>,
    suppliers: map<Id, Supplier>,
    certificates: map<Id, Certificate>,
    nextEquipmentId: Id,
    nextRepairId: Id,
    nextWriteOffId: Id,
    nextSupplierId: Id,
    nextCertificateId: Id)

  /** Every identifier of a table is one its serial counter has already handed out. */
  ghost predicate Numbered<R>(table: map<Id, R>, next: Id)
  {
    next >= 1 && forall id :: id in table ==> 0 < id < next
  }

  /** `UPDATE <table> SET ... WHERE <id> = id`: the row with that identifier is replaced;
      no row changes when the identifier is gone. */
  function Overwrite<R>(table: map<Id, R>, id: Id, row: R): (m: map<Id, R>)
    ensures m.Keys == table.Keys
    ensures id in table ==> m[id] == row
    ensures forall k :: k in m && k != id ==> m[k] == table[k]
  {
    if id in table then table[id := row] else table
  }

  /** `DELETE FROM repair WHERE equipmentid = e`. */
  function RepairsWithout(repairs: map<Id, Repair>, e: Id): (m: map<Id, Repair>)
    ensures forall id :: id in m <==> id in repairs && repairs[id].equipmentId != e
    ensures forall id :: id in m ==> m[id] == repairs[id]
  {
    map id | id in repairs && repairs[id].equipmentId != e :: repairs[id]
  }

  /** `UPDATE equipment SET status = v WHERE equipmentid = e`: no row changes when e is gone. */
  function WithStatus(equipment: map<Id, Equipment>, e: Id, v: EquipmentStatus): (m: map<Id, Equipment>)
    ensures m.Keys == equipment.Keys
    ensures e in m ==> m[e] == equipment[e].(status := Some(v))
    ensures forall id :: id in m && id != e ==> m[id] == equipment[id]
  {
    if e in equipment then equipment[e := equipment[e].(status := Some(v))] else equipment
  }

  /** The database all five windows share. */
  class Database {
    var equipment: map<Id, Equipment>
    var repairs: map<Id, Repair>
    var writeOffs: map<Id, WriteOffAct>
    var suppliers: map<Id, Supplier>
    var certificates: map<Id, Certificate>

    var nextEquipmentId: Id
    var nextRepairId: Id
    var nextWriteOffId: Id
    var nextSupplierId: Id
    var nextCertificateId: Id

    /** The database's current contents as one value. */
    ghost function State(): Tables
      reads this
    {
      Tables(equipment, repairs, writeOffs, suppliers, certificates,
             nextEquipmentId, nextRepairId, nextWriteOffId, nextSupplierId, nextCertificateId)
    }

    /** An identifier the equipment serial has handed out (the row may since be gone). */
    ghost predicate IssuedEquipment(id: Id)
      reads this
    {
      0 < id < nextEquipmentId
    }

    /** An identifier the supplier serial has handed out. */
    ghost predicate IssuedSupplier(id: Id)
      reads this
    {
      0 < id < nextSupplierId
    }

    /** What the windows keep true: identifiers come from the serials, every reference
        names equipment that was once added, names are stripped and non-empty, and
        write-off reasons are non-empty. */
    ghost predicate Valid()
      reads this
    {
      && Numbered(equipment, nextEquipmentId)
      && Numbered(repairs, nextRepairId)
      && Numbered(writeOffs, nextWriteOffId)
      && Numbered(suppliers, nextSupplierId)
      && Numbered(certificates, nextCertificateId)
      && (forall id :: id in repairs ==> IssuedEquipment(repairs[id].equipmentId))
      && (forall id :: id in writeOffs ==> IssuedEquipment(writeOffs[id].equipmentId))
      && (forall id :: id in certificates ==> IssuedEquipment(certificates[id].equipmentId))
      && (forall id :: id in certificates ==> IssuedSupplier(certificates[id].supplierId))
      && (forall id :: id in equipment ==> ValidName(equipment[id].name))
      && (forall id :: id in suppliers ==> ValidName(suppliers[id].name))
      && (forall id :: id in writeOffs ==> writeOffs[id].reason != "")
    }

    /** `UPDATE equipment SET equipmentname = name WHERE equipmentid = id`: no row changes
        when the identifier is gone. */
    method RenameEquipment(id: Id, name: string)
      requires Valid() && ValidName(name)
      modifies this
      ensures Valid()
      ensures id in old(equipment) ==>
        State() == old(State()).(equipment := old(equipment)[id := old(equipment)[id].(name := name)])
      ensures id !in old(equipment) ==> State() == old(State())
    {
      if id in equipment {
        equipment := equipment[id := equipment[id].(name := name)];
      }
    }

    /** `INSERT INTO equipment (name) VALUES (name) RETURNING equipmentid`: only the name
        is written, so the cached status keeps its column default. */
    method InsertEquipment(name: string) returns (id: Id)
      requires Valid() && ValidName(name)
      modifies this
      ensures Valid()
      ensures id == old(nextEquipmentId) && id !in old(equipment)
      ensures State() == old(State()).(equipment := old(equipment)[id := Equipment(name, None)], nextEquipmentId := id + 1)
    {
      id := nextEquipmentId;
      equipment := equipment[id := Equipment(name, None)];
      nextEquipmentId := id + 1;
    }

    /** `UPDATE equipment SET status = v WHERE equipmentid = e`. */
    method StoreStatus(e: Id, v: EquipmentStatus)
      requires Valid()
      modifies this
      ensures Valid()
      ensures State() == old(State()).(equipment := WithStatus(old(equipment), e, v))
    {
      equipment := WithStatus(equipment, e, v);
    }

    /** `INSERT INTO repair ... RETURNING repairid`. */
    method InsertRepair(row: Repair) returns (id: Id)
      requires Valid() && IssuedEquipment(row.equipmentId)
      modifies this
      ensures Valid()
      ensures id == old(nextRepairId) && id !in old(repairs)
      ensures State() == old(State()).(repairs := old(repairs)[id := row], nextRepairId := id + 1)
    {
      id := nextRepairId;
      repairs := repairs[id := row];
      nextRepairId := id + 1;
    }

    /** `UPDATE repair SET equipmentid, repairdate, repairprice, repairstatusid WHERE repairid = id`. */
    method OverwriteRepair(id: Id, row: Repair)
      requires Valid() && IssuedEquipment(row.equipmentId)
      modifies this
      ensures Valid()
      ensures State() == old(State()).(repairs := Overwrite(old(repairs), id, row))
    {
      repairs := Overwrite(repairs, id, row);
    }

    /** `DELETE FROM repair WHERE equipmentid = e`. */
    method DeleteRepairsOf(e: Id)
      requires Valid()
      modifies this
      ensures Valid()
      ensures State() == old(State()).(repairs := RepairsWithout(old(repairs), e))
    {
      repairs := RepairsWithout(repairs, e);
    }

    /** `DELETE FROM equipment WHERE equipmentid = id`. */
    method DeleteEquipment(id: Id)
      requires Valid()
      modifies this
      ensures Valid()
      ensures State() == old(State()).(equipment := old(equipment) - {id})
    {
      equipment := equipment - {id};
    }

    /** `DELETE FROM repair WHERE repairid = id`. */
    method DeleteRepair(id: Id)
      requires Valid()
      modifies this
      ensures Valid()
      ensures State() == old(State()).(repairs := old(repairs) - {id})
    {
      repairs := repairs - {id};
    }

    /** `INSERT INTO writeoffact ... RETURNING writeoffactid`. */
    method InsertWriteOff(row: WriteOffAct) returns (id: Id)
      requires Valid() && IssuedEquipment(row.equipmentId) && row.reason != ""
      modifies this
      ensures Valid()
      ensures id == old(nextWriteOffId) && id !in old(writeOffs)
      ensures State() == old(State()).(writeOffs := old(writeOffs)[id := row], nextWriteOffId := id + 1)
    {
      id := nextWriteOffId;
      writeOffs := writeOffs[id := row];
      nextWriteOffId := id + 1;
    }

    /** `UPDATE writeoffact SET equipmentid, writeoffdate, reason WHERE writeoffactid = id`. */
    method OverwriteWriteOff(id: Id, row: WriteOffAct)
      requires Valid() && IssuedEquipment(row.equipmentId) && row.reason != ""
      modifies this
      ensures Valid()
      ensures State() == old(State()).(writeOffs := Overwrite(old(writeOffs), id, row))
    {
      writeOffs := Overwrite(writeOffs, id, row);
    }

    /** `DELETE FROM writeoffact WHERE writeoffactid = id`. */
    method DeleteWriteOff(id: Id)
      requires Valid()
      modifies this
      ensures Valid()
      ensures State() == old(State()).(writeOffs := old(writeOffs) - {id})
    {
      writeOffs := writeOffs - {id};
    }

    /** `INSERT INTO supplier (suppliername) VALUES (name) RETURNING supplierid`. */
    method InsertSupplier(name: string) returns (id: Id)
      requires Valid() && ValidName(name)
      modifies this
      ensures Valid()
      ensures id == old(nextSupplierId) && id !in old(suppliers)
      ensures State() == old(State()).(suppliers := old(suppliers)[id := Supplier(name)], nextSupplierId := id + 1)
    {
      id := nextSupplierId;
      suppliers := suppliers[id := Supplier(name)];
      nextSupplierId := id + 1;
    }

    /** `UPDATE supplier SET suppliername = name WHERE supplierid = id`. */
    method RenameSupplier(id: Id, name: string)
      requires Valid() && ValidName(name)
      modifies this
      ensures Valid()
      ensures State() == old(State()).(suppliers := Overwrite(old(suppliers), id, Supplier(name)))
    {
      suppliers := Overwrite(suppliers, id, Supplier(name));
    }

    /** `DELETE FROM supplier WHERE supplierid = id`. */
    method DeleteSupplier(id: Id)
      requires Valid()
      modifies this
      ensures Valid()
      ensures State() == old(State()).(suppliers := old(suppliers) - {id})
    {
      suppliers := suppliers - {id};
    }

    /** `INSERT INTO acceptancecertificate ... RETURNING acceptancecertificateid`. */
    method InsertCertificate(row: Certificate) returns (id: Id)
      requires Valid() && IssuedEquipment(row.equipmentId) && IssuedSupplier(row.supplierId)
      modifies this
      ensures Valid()
      ensures id == old(nextCertificateId) && id !in old(certificates)
      ensures State() == old(State()).(certificates := old(certificates)[id := row], nextCertificateId := id + 1)
    {
      id := nextCertificateId;
      certificates := certificates[id := row];
      nextCertificateId := id + 1;
    }

    /** `UPDATE acceptancecertificate SET equipmentid, dateofrecovery, supplierid WHERE
        acceptancecertificateid = id`. */
    method OverwriteCertificate(id: Id, row: Certificate)
      requires Valid() && IssuedEquipment(row.equipmentId) && IssuedSupplier(row.supplierId)
      modifies this
      ensures Valid()
      ensures State() == old(State()).(certificates := Overwrite(old(certificates), id, row))
    {
      certificates := Overwrite(certificates, id, row);
    }

    /** `DELETE FROM acceptancecertificate WHERE acceptancecertificateid = id`. */
    method DeleteCertificate(id: Id)
      requires Valid()
      modifies this
      ensures Valid()
      ensures State() == old(State()).(certificates := old(certificates) - {id})
    {
      certificates := certificates - {id};
    }

    /** An empty database whose serials start at 1. */
    constructor ()
      ensures Valid()
      ensures equipment == map[] && repairs == map[] && writeOffs == map[]
      ensures suppliers == map[] && certificates == map[]
      ensures nextEquipmentId == 1 && nextRepairId == 1 && nextWriteOffId == 1
      ensures nextSupplierId == 1 && nextCertificateId == 1
    {
      equipment, repairs, writeOffs, suppliers, certificates := map[], map[], map[], map[], map[];
      nextEquipmentId, nextRepairId, nextWriteOffId, nextSupplierId, nextCertificateId := 1, 1, 1, 1, 1;
    }
  }
}
