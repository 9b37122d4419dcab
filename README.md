# Equipment lifecycle of the Kursach desktop client, in Dafny

The repository is a PyQt6 desktop client over one PostgreSQL database. It has five windows:
equipment, repairs, write-off acts, suppliers and acceptance certificates. This project
models the windows' handlers as operations on an in-memory database and proves what they
guarantee about an equipment item's status.

- **Derived status.** The equipment listing derives each item's status on every load from
  the other tables: written off when a write-off act names it, otherwise under repair when
  one of its repairs is "В процессе", otherwise operational (`Status.DerivedStatus`).
- **Cached status.** The repair window also caches a status in the `equipment.status` column
  through its synchronizer, `update_equipment_status` (`RepairWindow.UpdateEquipmentStatus`).
  The model proves where the cache agrees with the derivation, and exhibits the three
  places where the two drift apart:
  - The synchronizer ignores write-off acts.
  - Editing a repair re-synchronizes only its new equipment item, and only when the status
    name changed.
  - The repair window runs in autocommit, so a failed synchronization leaves the repair
    saved and the cache stale.

Layout, one module per file:

- `common.dfy`: identifiers, replies and the failure model.
- `text.dfy`: Python's `str.strip()`.
- `ordering.dfy`: the orders of the listings.
- `schema.dfy`: the rows, and a `Database` class with one method per SQL statement.
- `status.dfy`: the derivation, the synchronizer's value, and the effect of each table
  change on the derivation.
- One module per window: `equipment.dfy`, `repair.dfy`, `writeoff.dfy`, `supplier.dfy`,
  `certificate.dfy`.
- `scenarios.dfy`: whole sessions proved for every valid input.

Database exceptions are a parameter. `FailsAt(k)` makes the handler's k-th statement raise.
Statements are numbered from 1 within the handler, and a COMMIT counts as a statement.

- The four transactional windows roll back on any failure. Only the serial counter stays
  advanced after a failed COMMIT, as PostgreSQL sequences do.
- The repair window keeps every statement that ran before the failure.

## Model

| member | source | states |
|---|---|---|
| Text.Strip | Equipment.py:278 | the stripped name neither starts nor ends with whitespace and is no longer than the input |
| Text.StripIsSlice | Equipment.py:278 | the stripped name is the input's middle, character for character, starting where the leading whitespace ends, with only whitespace before and after it |
| Text.StripEmptyIff | Equipment.py:278-282 | a typed name is refused as empty exactly when every character of it is whitespace |
| Text.StrippedIsFixed | Supplier.py:372-379 | stripping a name that is already stripped changes nothing, so a stored name compares equal to itself once typed again |
| Text.StripIdempotent | Supplier.py:372-373 | stripping twice is stripping once, and a non-empty result is a valid stored name |
| Ordering.Ascending | Equipment.py:215 | the identifiers of a table once each, in strictly ascending order |
| Ordering.LatestFirst | Repair.py:240 | a permutation of the identifiers in which every earlier one has a date no earlier than every later one |
| Ordering.ByName | Supplier.py:196 | a permutation of the identifiers in which every earlier one has a name no greater than every later one |
| Ordering.NameLeqTotal | Supplier.py:196 | any two names are ordered one way or the other |
| Ordering.NameLeqTransitive | Supplier.py:196 | the order of names is transitive |
| Ordering.NameLeqAntisymmetric | Supplier.py:196 | two names ordered both ways are equal |
| Schema.StatusNamed | Repair.py:322-325 | the status a name stands for carries that name, and no status is found exactly when no status carries the name |
| Schema.StatusNameRoundTrip | Repair.py:322-325 | looking a status up by its own name finds that status |
| Schema.Overwrite | Supplier.py:382-384 | an UPDATE by identifier replaces that row if present and leaves every other row and the set of identifiers as they were |
| Schema.WithStatus | Repair.py:137-139 | the status UPDATE sets only the cached status of that item and changes no other row |
| Schema.Database.InsertEquipment | Equipment.py:285-287 | inserts the name under the next serial number with no cached status, and changes nothing else |
| Schema.Database.RenameEquipment | Equipment.py:362-364 | replaces the item's name if the row exists, and changes nothing else |
| Schema.Database.StoreStatus | Repair.py:137-139 | writes the cached status of one item, and changes nothing else |
| Schema.Database.InsertRepair | Repair.py:327-333 | inserts the repair under the next serial number, and changes nothing else |
| Schema.Database.OverwriteRepair | Repair.py:456-463 | replaces all four fields of the repair if it exists, and changes nothing else |
| Schema.Database.DeleteRepairsOf | Equipment.py:405-407 | removes every repair of that item and no other repair, and changes nothing else |
| Schema.Database.DeleteEquipment | Equipment.py:410-412 | removes that one item, and changes nothing else |
| Schema.Database.DeleteRepair | Repair.py:523-525 | removes that one repair, and changes nothing else |
| Schema.Database.InsertWriteOff | WriteOffAct.py:297-302 | inserts the act under the next serial number, and changes nothing else |
| Schema.Database.OverwriteWriteOff | WriteOffAct.py:409-415 | replaces the act's fields if it exists, and changes nothing else |
| Schema.Database.DeleteWriteOff | WriteOffAct.py:460-462 | removes that one act, and changes nothing else |
| Schema.Database.InsertSupplier | Supplier.py:279-282 | inserts the supplier under the next serial number, and changes nothing else |
| Schema.Database.RenameSupplier | Supplier.py:382-384 | replaces the supplier's name if it exists, and changes nothing else |
| Schema.Database.DeleteSupplier | Supplier.py:418-420 | removes that one supplier, and changes nothing else |
| Schema.Database.InsertCertificate | acceptancecertificate.py:300-305 | inserts the certificate under the next serial number, and changes nothing else |
| Schema.Database.OverwriteCertificate | acceptancecertificate.py:422-428 | replaces the certificate's fields if it exists, and changes nothing else |
| Schema.Database.DeleteCertificate | acceptancecertificate.py:471-473 | removes that one certificate, and changes nothing else |
| Status.DerivedStatus | Equipment.py:201-212 | the CASE in priority order: written off exactly when an act names the item; otherwise under repair exactly when a repair of it is in progress; operational exactly when neither holds |
| Status.ActiveCountPositive | Repair.py:129-135 | the synchronizer's COUNT of in-progress repairs is positive exactly when the listing's EXISTS holds |
| Status.SyncValue | Repair.py:126-135 | the synchronizer never writes "written off", and writes "under repair" exactly when the status passed in is "in progress" or a repair of the item is in progress |
| Status.SyncAgreement | Repair.py:123-143 | when the status passed in is true of the repairs, the synchronizer writes the repair-driven status, which equals the derived status exactly when no write-off act names the item |
| Status.SyncIdempotent | Repair.py:137-139 | synchronizing the same item again over the same repairs stores what the first call stored |
| Schema.RepairsWithout | Equipment.py:405-407 | the cascade keeps exactly the repairs of other equipment, unchanged |
| Status.CascadeEffect | Equipment.py:404-411 | after the cascade the item has no repair left, and every other item keeps its derived status |
| Status.WriteOffPutEffect | WriteOffAct.py:297-305 | inserting or editing an act makes its item written off whatever its repairs; only the item an edited act named before can also change |
| Status.WriteOffRemoveEffect | WriteOffAct.py:460-463 | deleting an act leaves its item written off only if another act names it, and otherwise re-derives it from its repairs; no other item changes |
| Status.RepairPutEffect | Repair.py:456-463 | writing a repair moves the derived status of its old and new item only, and an in-progress repair makes its item not operational |
| EquipmentWindow.Listing | Equipment.py:199-216 | one row per item in ascending identifier order, each carrying the item's name and its derived status |
| EquipmentWindow.AddEquipment | Equipment.py:277-308 | refused exactly when the stripped name is empty; on success the stripped name is stored under the next number and the item derives as operational; on failure only the serial may have advanced, and it has exactly when the COMMIT failed |
| EquipmentWindow.SaveEquipment | Equipment.py:284-308 | the INSERT and the COMMIT for a valid name: stored under the next number and operational, or nothing but the serial changes |
| EquipmentWindow.EditReply | Equipment.py:327-373 | refused as locked exactly when a write-off act names the item; otherwise refused for an empty stripped name; otherwise failed exactly when the UPDATE or COMMIT fails |
| EquipmentWindow.UpdateEquipment | Equipment.py:327-373 | replies as EditReply; only a successful rename changes the table, and then only the item's name |
| EquipmentWindow.DeleteEquipment | Equipment.py:392-417 | refused exactly when the item is written off; on success the item and all its repairs are gone and every other item keeps its derived status; on any failure nothing changes |
| RepairWindow.StatusChoices | Repair.py:114-121 | the names read from the table, or the three names, each naming its status, in identifier order |
| RepairWindow.UpdateEquipmentStatus | Repair.py:123-143 | answers true exactly when neither of its statements fails, and then caches SyncValue for that item only; otherwise nothing changes |
| RepairWindow.SyncTwice | Repair.py:123-143 | two failure-free synchronizations of the same item with the same status leave the database as the first one left it |
| RepairWindow.AddRepair | Repair.py:311-335 | refused exactly for an incomplete form; succeeds exactly when the status name exists and the lookup and INSERT run; the repair stays even when the synchronization then fails, and only then is the cache left as it was |
| RepairWindow.UpdateRepair | Repair.py:432-466 | succeeds exactly when the status name and the repair exist and no statement up to the UPDATE fails; the synchronizer runs only when the status name changed, and only for the new item |
| RepairWindow.DeleteRepair | Repair.py:495-528 | succeeds exactly when the repair exists and its SELECT and DELETE run; only a deleted in-progress repair re-synchronizes its item, to the status its remaining repairs give |
| RepairWindow.Listing | Repair.py:231-241 | one row per repair, latest date first, each with its fields and the joined equipment name if the item still exists |
| WriteOffWindow.AddWriteOff | WriteOffAct.py:285-335 | refused exactly for an incomplete form; on success the act is stored under the next number, its item derives as written off and no other item changes; on failure only the serial may have advanced |
| WriteOffWindow.UpdateWriteOff | WriteOffAct.py:397-434 | refused exactly for an incomplete form; on success the act is overwritten, its new item derives as written off and only its old item can also change; on failure nothing changes |
| WriteOffWindow.DeleteWriteOff | WriteOffAct.py:441-467 | never refused; on success the act is gone, its item is re-derived from what remains and no other item changes; on failure nothing changes |
| WriteOffWindow.Listing | WriteOffAct.py:206-220 | one row per act, latest date first, each with its fields and the joined equipment name if the item still exists |
| SupplierWindow.AddSupplier | Supplier.py:272-300 | refused exactly when the stripped name is empty; on success the stripped name is stored under the next number; on failure only the serial may have advanced, and it has exactly when the COMMIT failed |
| SupplierWindow.SaveSupplier | Supplier.py:278-300 | the INSERT and the COMMIT for a valid name: stored under the next number, or nothing but the serial changes |
| SupplierWindow.UpdateSupplier | Supplier.py:371-393 | refused exactly when the stripped name is empty; an unchanged name succeeds without writing; otherwise the name is overwritten, or nothing changes on failure |
| SupplierWindow.DeleteSupplier | Supplier.py:400-425 | never refused; the supplier is gone on success and nothing changes on failure |
| SupplierWindow.Listing | Supplier.py:189-196 | one row per supplier with its name, in order of name |
| CertificateWindow.AddCertificate | acceptancecertificate.py:288-333 | refused exactly for an incomplete form; on success the certificate is stored under the next number; on failure only the serial may have advanced |
| CertificateWindow.UpdateCertificate | acceptancecertificate.py:410-445 | refused exactly for an incomplete form; on success the certificate is overwritten; on failure nothing changes |
| CertificateWindow.DeleteCertificate | acceptancecertificate.py:452-478 | never refused; the certificate is gone on success and nothing changes on failure |
| CertificateWindow.Listing | acceptancecertificate.py:212-227 | one row per certificate, latest date first, with both joined names where their rows still exist |
| Scenarios.RepairLifecycle | Repair.py:123-143 | a new item derives as operational; an in-progress repair makes it under repair in the listing and in the cache; completing the repair makes it operational in both |
| Scenarios.WriteOffLocksAndReleases | Equipment.py:327-330 | a write-off act makes an item under repair derive as written off and refuses its rename; deleting the act brings "under repair" back with no synchronization |
| Scenarios.MovedRepairLeavesOldCache | Repair.py:465-466 | completing an in-progress repair while moving it to another item leaves "under repair" cached for the old item, which now derives as operational |
| Scenarios.UnchangedStatusSkipsSync | Repair.py:465-466 | moving an in-progress repair without changing its status leaves the new item's cache unwritten although it derives as under repair |
| Scenarios.SyncFailureKeepsRepair | Repair.py:99 | when the synchronizer's UPDATE fails, the repair is still reported as added and kept, and the cache stays unwritten |
| Scenarios.SyncOverwritesWrittenOff | Repair.py:335 | a repair added to a written-off item caches "under repair" for it, while the listing still derives it as written off |

## Left out

- User interface: widgets, dialogs, confirmation boxes, table cell colours and the
  console diagnostics. A Cancel on a confirmation box is the same as not calling the handler.
- The connection and its errors. The SQL text and the rows' column types. Date formats and
  `QDate` are left out; a date is a day number. Concurrent sessions are left out.
- Foreign keys are not enforced. The model does not invent the foreign-key failures
  PostgreSQL may raise.
  - Deleting equipment that acceptance certificates still name succeeds here.
  - So does deleting a supplier that certificates name.
- Form ids are assumed to be issued ids, because the combo boxes are filled from the tables.
  That filling, `load_equipment` and `load_suppliers` (`ORDER BY name`), is not modelled.
- A price is an integer number of kopecks between 0 and 9 999 999 roubles, the range the
  spin box allows.
  - The spin box's floating point and rounding are left out.
  - A negative price is never reported as a validation error. The spin box clamps the
    value, so no handler can receive one, and the model has no such error.
- A repair edit that moves the repair to another item does not re-synchronize the item it
  moved away from. Only the new item is re-synchronized, and only when the status name
  changed. The model keeps that: `RepairWindow.UpdateRepair` and
  `Scenarios.MovedRepairLeavesOldCache`.
- A failure in the repair window does not undo the statements before it. That window runs
  in autocommit, so the model keeps the earlier statements there: `Scenarios.SyncFailureKeepsRepair`.
- Names are ordered by character code. PostgreSQL's collation for `ORDER BY suppliername`
  is left out. Rows with equal sort keys come in no particular order in the database, and
  the model fixes one.
- `load_repair_statuses` orders by `reparstatusid`, which no other query uses. The query's
  outcome is a parameter of `RepairWindow.StatusChoices`, which models both branches.
- EquipmentWindow.UpdateEquipment: the lock reads the status shown in the last-loaded
  table cell. The model uses the status derived at call time, which equals the cell when
  the listing is fresh.
- EquipmentWindow.DeleteEquipment: the same simplification of the written-off guard.
- SupplierWindow.UpdateSupplier: the unchanged-name check compares with the name shown in
  the table cell. The model compares with the stored name.
- RepairWindow.DeleteRepair: the synchronizer gets the equipment id shown in the table
  cell. The model uses the repair's stored equipment id.
- A failed UPDATE or DELETE in a transactional window is modelled as leaving the tables
  unchanged. The model does not run the statement and then the ROLLBACK. The observable
  state is the same.
- The equipment listing is modelled only as stored. The table-widget rows the handlers
  append after a commit are not modelled.
