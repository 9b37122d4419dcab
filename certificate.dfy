/** The acceptance certificate window: which supplier delivered an equipment item and when.
    Certificates record provenance only; no handler here writes the equipment, repair or
    write-off tables. Each handler runs one statement and a COMMIT, and rolls back when
    either fails. */
module CertificateWindow {
  import opened Common
  import opened Ordering
  import opened Schema

  /** What the window asks of its form: an equipment item, a supplier and a date. */
  predicate FormComplete(equipId: Option<Id>, supplierId: Option<Id>, date: Option<Date>)
  {
    equipId.Some? && supplierId.Some? && date.Some?
  }

  /** `add_certificate`: an incomplete form is refused; otherwise the certificate is
      inserted (statement 1) and committed (statement 2). A failed COMMIT rolls the row
      back, but the serial keeps the number it handed out. */
  method AddCertificate(db: Database, equipId: Option<Id>, supplierId: Option<Id>, date: Option<Date>, failure: Failure)
    returns (r: Reply<Id>)
    requires db.Valid()
    requires equipId.Some? ==> db.IssuedEquipment(equipId.value)
    requires supplierId.Some? ==> db.IssuedSupplier(supplierId.value)
    modifies db
    ensures db.Valid()
    ensures r.Rejected? <==> !FormComplete(equipId, supplierId, date)
    ensures r.Rejected? ==> r.why == MissingField
    ensures r.Ok? <==> FormComplete(equipId, supplierId, date) && !FailsWithin(failure, 1, 2)
    ensures r.Ok? ==>
      && r.value == old(db.nextCertificateId) && r.value !in old(db.certificates)
      && db.State() == old(db.State()).(
           certificates := old(db.certificates)[r.value := Certificate(equipId.value, date.value, supplierId.value)],
           nextCertificateId := r.value + 1)
    ensures !r.Ok? ==> db.State() == old(db.State()).(nextCertificateId := db.nextCertificateId)
    ensures db.nextCertificateId == if r.Ok? || (r.Failed? && FailsWithin(failure, 2, 2)) then old(db.nextCertificateId) + 1
                                    else old(db.nextCertificateId)
  {
    if !FormComplete(equipId, supplierId, date) {
      return Rejected(MissingField);
    }
    if FailsWithin(failure, 1, 1) {
      return Failed;
    }
    var saved := db.certificates;
    var id := db.InsertCertificate(Certificate(equipId.value, date.value, supplierId.value));
    if FailsWithin(failure, 2, 2) {
      db.certificates := saved;  // ROLLBACK
      return Failed;
    }
    r := Ok(id);
  }

  /** `update_certificate`: an incomplete form is refused; otherwise the equipment, date
      and supplier of certificate id are overwritten (statement 1) and committed
      (statement 2), or nothing changes. */
  method UpdateCertificate(db: Database, id: Id, equipId: Option<Id>, supplierId: Option<Id>, date: Option<Date>, failure: Failure)
    returns (r: Reply<()>)
    requires db.Valid()
    requires equipId.Some? ==> db.IssuedEquipment(equipId.value)
    requires supplierId.Some? ==> db.IssuedSupplier(supplierId.value)
    modifies db
    ensures db.Valid()
    ensures r.Rejected? <==> !FormComplete(equipId, supplierId, date)
    ensures r.Rejected? ==> r.why == MissingField
    ensures r.Ok? <==> FormComplete(equipId, supplierId, date) && !FailsWithin(failure, 1, 2)
    ensures r.Ok? ==>
      db.State() == old(db.State()).(certificates := Overwrite(old(db.certificates), id, Certificate(equipId.value, date.value, supplierId.value)))
    ensures !r.Ok? ==> db.State() == old(db.State())
  {
    if !FormComplete(equipId, supplierId, date) {
      return Rejected(MissingField);
    }
    if FailsWithin(failure, 1, 2) {
      return Failed;  // ROLLBACK
    }
    db.OverwriteCertificate(id, Certificate(equipId.value, date.value, supplierId.value));
    r := Ok(());
  }

  /** `delete_certificate`: the row is deleted (statement 1) and committed (statement 2),
      or nothing changes. */
  method DeleteCertificate(db: Database, id: Id, failure: Failure) returns (r: Reply<()>)
    requires db.Valid()
    modifies db
    ensures db.Valid()
    ensures !r.Rejected?
    ensures r.Ok? <==> !FailsWithin(failure, 1, 2)
    ensures r.Ok? ==> db.State() == old(db.State()).(certificates := old(db.certificates) - {id})
    ensures !r.Ok? ==> db.State() == old(db.State())
  {
    if FailsWithin(failure, 1, 2) {
      return Failed;
    }
    db.DeleteCertificate(id);
    r := Ok(());
  }

  /** One row of the certificate listing; both names come from LEFT JOINs. */
  datatype CertificateRow = CertificateRow(id: Id, equipmentId: Id, equipmentName: Option<string>, date: Date, supplierName: Option<string>)

  function CertificateRowOf(equipment: map<Id, Equipment>, suppliers: map<Id, Supplier>, certificates: map<Id, Certificate>, id: Id)
    : CertificateRow
    requires id in certificates
  {
    var c := certificates[id];
    CertificateRow(id, c.equipmentId,
                   if c.equipmentId in equipment then Some(equipment[c.equipmentId].name) else None,
                   c.date,
                   if c.supplierId in suppliers then Some(suppliers[c.supplierId].name) else None)
  }

  /** `load_data`: one row per certificate, latest acceptance date first (`ORDER BY
      ac.dateofrecovery DESC`), with the equipment and supplier names joined in. */
  function Listing(equipment: map<Id, Equipment>, suppliers: map<Id, Supplier>, certificates: map<Id, Certificate>)
    : (rows: seq<CertificateRow>)
    ensures multiset(Keys(rows, (row: CertificateRow) => row.id)) == multiset(certificates.Keys)
    ensures forall i :: 0 <= i < |rows| ==>
      rows[i].id in certificates && rows[i] == CertificateRowOf(equipment, suppliers, certificates, rows[i].id)
    ensures forall i, j :: 0 <= i < j < |rows| ==> rows[i].date >= rows[j].date
  {
    var ids := LatestFirst(certificates.Keys, id => if id in certificates then certificates[id].date else 0);
    var rows := seq(|ids|, i requires 0 <= i < |ids| => CertificateRowOf(equipment, suppliers, certificates, ids[i]));
    assert Keys(rows, (row: CertificateRow) => row.id) == ids;
    rows
  }
}
