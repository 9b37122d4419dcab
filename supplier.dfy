/** The supplier window. Names are stripped and must not be empty; each handler runs one
    statement and a COMMIT, and rolls back when either fails. */
module SupplierWindow {
  import opened Common
  import opened Text
  import opened Ordering
  import opened Schema

  /** `add_supplier`: strips the typed name and refuses an empty one; otherwise saves it
      as a new supplier. */
  method AddSupplier(db: Database, input: string, failure: Failure) returns (r: Reply<Id>)
    requires db.Valid()
    modifies db
    ensures db.Valid()
    ensures r.Rejected? <==> Strip(input) == []
    ensures r.Rejected? ==> r.why == EmptyName
    ensures r.Ok? <==> Strip(input) != [] && !FailsWithin(failure, 1, 2)
    ensures r.Ok? ==>
      && r.value == old(db.nextSupplierId) && r.value !in old(db.suppliers)
      && db.State() == old(db.State()).(
           suppliers := old(db.suppliers)[r.value := Supplier(Strip(input))],
           nextSupplierId := r.value + 1)
    ensures !r.Ok? ==> db.State() == old(db.State()).(nextSupplierId := db.nextSupplierId)
    ensures db.nextSupplierId == if r.Ok? || (r.Failed? && FailsWithin(failure, 2, 2)) then old(db.nextSupplierId) + 1
                                 else old(db.nextSupplierId)
  {
    var name := Strip(input);
    if name == [] {
      return Rejected(EmptyName);
    }
    r := SaveSupplier(db, name, failure);
  }

  /** The statements `add_supplier` runs for a non-empty stripped name: the INSERT
      (statement 1) and the COMMIT (statement 2). A failed COMMIT rolls the row back, but
      the serial keeps the number it handed out. */
  method SaveSupplier(db: Database, name: string, failure: Failure) returns (r: Reply<Id>)
    requires db.Valid() && ValidName(name)
    modifies db
    ensures db.Valid()
    ensures !r.Rejected?
    ensures r.Ok? <==> !FailsWithin(failure, 1, 2)
    ensures r.Ok? ==>
      && r.value == old(db.nextSupplierId) && r.value !in old(db.suppliers)
      && db.State() == old(db.State()).(
           suppliers := old(db.suppliers)[r.value := Supplier(name)],
           nextSupplierId := r.value + 1)
    ensures !r.Ok? ==> db.State() == old(db.State()).(nextSupplierId := db.nextSupplierId)
    ensures db.nextSupplierId == if r.Ok? || FailsWithin(failure, 2, 2) then old(db.nextSupplierId) + 1
                                 else old(db.nextSupplierId)
  {
    if FailsWithin(failure, 1, 1) {
      return Failed;
    }
    var id := db.InsertSupplier(name);
    if FailsWithin(failure, 2, 2) {
      db.DeleteSupplier(id);  // ROLLBACK: the row goes, the serial stays advanced
      assert db.suppliers == old(db.suppliers);
      return Failed;
    }
    r := Ok(id);
  }

  /** The stripped name equals the one stored for supplier id, so the dialog just closes. */
  predicate SameName(suppliers: map<Id, Supplier>, id: Id, name: string)
  {
    id in suppliers && suppliers[id].name == name
  }

  /** `update_supplier`: an empty stripped name is refused; a name equal to the current one
      closes the dialog without writing; otherwise the name is overwritten (statement 1)
      and committed (statement 2), or nothing changes. No other supplier changes. */
  method UpdateSupplier(db: Database, id: Id, input: string, failure: Failure) returns (r: Reply<()>)
    requires db.Valid()
    modifies db
    ensures db.Valid()
    ensures r.Rejected? <==> Strip(input) == []
    ensures r.Rejected? ==> r.why == EmptyName
    ensures r.Ok? <==> Strip(input) != [] && (SameName(old(db.suppliers), id, Strip(input)) || !FailsWithin(failure, 1, 2))
    ensures r.Ok? && !SameName(old(db.suppliers), id, Strip(input)) ==>
      db.State() == old(db.State()).(suppliers := Overwrite(old(db.suppliers), id, Supplier(Strip(input))))
    ensures !r.Ok? || SameName(old(db.suppliers), id, Strip(input)) ==> db.State() == old(db.State())
  {
    var name := Strip(input);
    if name == [] {
      return Rejected(EmptyName);
    }
    if id in db.suppliers && db.suppliers[id].name == name {
      return Ok(());  // unchanged: no statement runs
    }
    if FailsWithin(failure, 1, 2) {
      return Failed;  // ROLLBACK
    }
    db.RenameSupplier(id, name);
    r := Ok(());
  }

  /** `delete_supplier`: the row is deleted (statement 1) and committed (statement 2), or
      nothing changes. */
  method DeleteSupplier(db: Database, id: Id, failure: Failure) returns (r: Reply<()>)
    requires db.Valid()
    modifies db
    ensures db.Valid()
    ensures !r.Rejected?
    ensures r.Ok? <==> !FailsWithin(failure, 1, 2)
    ensures r.Ok? ==> db.State() == old(db.State()).(suppliers := old(db.suppliers) - {id})
    ensures !r.Ok? ==> db.State() == old(db.State())
  {
    if FailsWithin(failure, 1, 2) {
      return Failed;
    }
    db.DeleteSupplier(id);
    r := Ok(());
  }

  datatype SupplierRow = SupplierRow(id: Id, name: string)

  /** `load_data`: one row per supplier, in order of name (`ORDER BY suppliername`). */
  function Listing(suppliers: map<Id, Supplier>): (rows: seq<SupplierRow>)
    ensures multiset(Keys(rows, (row: SupplierRow) => row.id)) == multiset(suppliers.Keys)
    ensures forall i :: 0 <= i < |rows| ==> rows[i].id in suppliers && rows[i].name == suppliers[rows[i].id].name
    ensures forall i, j :: 0 <= i < j < |rows| ==> NameLeq(rows[i].name, rows[j].name)
  {
    var ids := ByName(suppliers.Keys, id => if id in suppliers then suppliers[id].name else []);
    var rows := seq(|ids|, i requires 0 <= i < |ids| => SupplierRow(ids[i], suppliers[ids[i]].name));
    assert Keys(rows, (row: SupplierRow) => row.id) == ids;
    rows
  }
}
