# Canteen ration store — a Dafny model

This project models the core of a staff meal-ration kiosk (a Streamlit
application backed by SQLite). Staff present a badge. The kiosk looks the
badge up and then does one of three things: it refuses an unknown badge,
it opens the administrative mode for a member of the `Admin_Akses`
department, or it logs one transaction. That transaction is valid when the
staff member still has ration quota (`jatah_harian`) left for the day. In
the administrative mode the operator manages staff and departments and
reads two reports: the daily ration status and the transaction history.

The three tables are modelled as one immutable `Store` value (module
`Tables`):

- `staff`: a map from badge to `Staff(name, department, quota)`. A map
  cannot hold two rows with one key, which is the column's UNIQUE
  constraint.
- `departments`: a set of names (also UNIQUE).
- `transactions`: an append-only sequence of
  `Transaction(badge, stamp, valid)`.

A timestamp is an integer count of microseconds on the local clock.
`Day(stamp)` is the calendar day that SQLite's `DATE()` takes from it.

Every database function becomes one pure transition. It returns the new
store and an outcome tag:

- `Admission`: the scan. `ScanOutcome` carries the kiosk's tags
  `Gagal` / `Sukses_Admin` / `Peringatan` / `Sukses` through `Tag()`.
- `Directory`: add, edit and delete staff; add and delete departments.
  `Outcome.Succeeded()` is the boolean half of the source's `(ok, message)`
  pairs.
- `Seeding`: the seeding of `init_db`. The script calls it at module level
  (line 401), so it runs at start-up and again after every successful
  administrative action, each of which ends in `st.rerun()`.
- `Reports`: the sorted department list, the daily ration report and the
  transaction history.
- `TextOrder`: the code-point order in which SQLite sorts text.
- `Interplay`: properties that link the kiosk, the directory and the
  reports.

The store invariant `Valid` (module `Tables`) has three parts:

- every transaction belongs to a registered badge;
- on no day does any badge hold more valid transactions than its quota
  allows;
- the administrative badge `9999Z` and the reserved departments
  `Admin_Akses` and `Tidak Ditentukan` exist.

Seeding establishes `Valid`. Every directory operation preserves it, and
so does a scan whose logged timestamp falls on the day it counted against
(see `Admission.ScanPreservesValid` under "Left out").

The model follows the code, including these behaviours a reader might not
expect:

- The daily report function does not exclude the administrative
  department; only the dashboard hides it.
- Because the seeding runs again after every administrative action, a
  default department deleted through the dashboard is inserted again on
  the next run. Its former members stay in `Tidak Ditentukan`.
- Adding or editing staff does not check that the department exists.
- Deleting a department does not check that the name exists; it still
  reports success.
- Deleting staff removes the badge's transactions before it knows whether
  the badge is registered.
- The quota is never checked to be non-negative.

## Model

| member | source | states |
|---|---|---|
| Tables.CountValidAppend | streamlit_app.py:371-377 | logging one more row changes the day's used-ration count of a badge by one exactly when that row is valid, of that badge and dated that day |
| Tables.CountValidZero | streamlit_app.py:371-377 | a badge's count for a day is 0 iff no row of the log is a valid row of that badge on that day |
| Tables.CountValidWithout | streamlit_app.py:215 | after deleting a badge's rows its count is 0 on every day and every other badge's count is unchanged |
| Tables.Without | streamlit_app.py:215-216 | the rows left after the cascade delete are exactly the rows of other badges, each kept as many times as it occurred; the log shrinks by the number of the badge's rows |
| Admission.Scan | streamlit_app.py:344-393 | an unknown badge fails and changes nothing; an `Admin_Akses` member opens the administrative mode and nothing is logged; any other badge appends exactly one row with its own badge and time, valid iff today's valid count is below the quota; a grant reports quota − (used + 1) left, a rejection reports used and quota with used ≥ quota |
| Admission.ScanCounts | streamlit_app.py:371-391 | the only count a scan changes is the scanned badge's count on the day of its timestamp, and only by one, only when granted; rejected rows never count |
| Admission.ScanPreservesValid | streamlit_app.py:371-391 | when the logged timestamp falls on the day that was counted, a scan keeps the store valid; in particular valid rows never exceed the quota |
| Admission.ScanStep | streamlit_app.py:380-393 | for a non-admin badge at or below quota: granted with quota − used − 1 left and the count rising by one when used < quota, otherwise rejected as quota/quota with the count unchanged; one row is logged either way |
| Admission.ScanAllCount | streamlit_app.py:371-391 | over successive scans on one day the count rises to the quota and no further, and every scan adds one row |
| Admission.ScanAllOutcomes | streamlit_app.py:380-393 | the k-th of successive scans on one day is granted with quota − (used + k) − 1 left while used + k < quota, and from then on is rejected reporting quota/quota |
| Admission.QuotaExhausted | streamlit_app.py:380-391 | with quota Q and nothing drawn today, the first Q scans are granted and the next one is rejected as Q/Q and logged as an invalid row |
| Admission.ScanAllLast | streamlit_app.py:382-390 | the last row logged by a run of scans is the last scan's row, valid iff that scan was granted |
| Directory.AddStaff | streamlit_app.py:172-182 | a registered badge fails as a duplicate with nothing changed; otherwise exactly the new record is added, with the given name, department and quota, and every other record, department and transaction is kept |
| Directory.EditStaff | streamlit_app.py:186-199 | not-found iff the badge is unregistered, and then nothing changes; otherwise only the name and department of that badge change, while its quota, every other record and every table else stay as they were |
| Directory.DeleteStaff | streamlit_app.py:208-223 | the admin badge is refused with nothing changed; for any other badge no row of it remains and every other row is kept as many times as it occurred, its staff record is gone and the rest are unchanged, success iff a record existed, reporting the number of the badge's rows in the log (`transaksi_count`) |
| Directory.AddDepartment | streamlit_app.py:142-149 | an existing name fails as a duplicate with nothing changed; otherwise exactly that name is added |
| Directory.DeleteDepartment | streamlit_app.py:153-165 | the two reserved names are refused with nothing changed; any other name is removed (existing or not), each of its members moves to `Tidak Ditentukan` keeping name and quota, nobody else changes, and the count reported is the number of members |
| Directory.AddStaffPreservesValid | streamlit_app.py:172-182 | adding staff keeps the store valid: a fresh badge starts with no rows |
| Directory.EditStaffPreservesValid | streamlit_app.py:186-199 | editing staff keeps the store valid |
| Directory.DeleteStaffPreservesValid | streamlit_app.py:208-223 | deleting staff keeps the store valid: the admin badge survives, and the cascade leaves no row without a record |
| Directory.AddDepartmentPreservesValid | streamlit_app.py:142-149 | adding a department keeps the store valid |
| Directory.DeleteDepartmentPreservesValid | streamlit_app.py:153-165 | deleting a department keeps the store valid: both reserved departments survive |
| Directory.WithoutAbsent | streamlit_app.py:215 | the cascade delete leaves the log untouched when the badge has no rows |
| Directory.DeleteStaffUndoesAddStaff | streamlit_app.py:172-223 | deleting a staff member just added restores the store exactly and reports 0 transactions removed |
| Directory.DeleteMissingStaffChangesNothing | streamlit_app.py:215-223 | although rows are deleted before the record is looked up, deleting an unregistered badge reports not-found and changes nothing in a store with referential integrity |
| Directory.EditStaffUndo | streamlit_app.py:186-199 | editing a record back to its previous name and department restores the store exactly |
| Directory.DeleteDepartmentUndoesAdd | streamlit_app.py:142-165 | deleting a department just added, that nobody belongs to, restores the store and reports 0 reassigned |
| Directory.DeleteDepartmentComplete | streamlit_app.py:157-165 | after a department is deleted nobody is left in it, and the count reported equals the number of staff records that changed |
| Seeding.Seed | streamlit_app.py:72-98 | the departments become the old ones plus the nine defaults; the admin badge exists afterwards, inserted as `Admin Master` in `Admin_Akses` with quota 0 when it was missing; existing records are never overwritten; when the staff table was empty it holds exactly the two sample staff and the admin record, and otherwise no other record is added; the log is untouched |
| Seeding.SeedEstablishesValid | streamlit_app.py:72-98 | seeding a consistent store yields a valid one: the reserved records exist and the records inserted have no rows |
| Seeding.SeedIdempotent | streamlit_app.py:72-98 | running the seeding a second time with no operation in between changes nothing |
| Seeding.InitialStoreContents | streamlit_app.py:17-20 | a first start holds exactly the nine default departments, the two sample staff and the admin badge, and no transactions |
| Seeding.QuotaOfOneScenario | streamlit_app.py:83-84 | the sample staff member with quota 1, scanning twice on one day, is granted with 0 left and then rejected as 1/1, leaving one valid and one invalid row |
| Reports.DepartmentList | streamlit_app.py:136-140 | the department names in ascending order with no repeats, exactly the stored ones |
| Reports.DailyRationReport | streamlit_app.py:294-340 | one line per staff member in the selected department (all departments when the filter is absent, empty or `Semua Departemen`), no badge twice, sorted by name; each line carries the record's name, department, badge and quota, the badge's valid rows dated today as used, quota − used as remaining, and `Selesai` iff remaining ≤ 0 |
| Reports.Joined | streamlit_app.py:246-268 | the joined lines are exactly the transactions of registered badges that pass the department filter and the inclusive day range, with the badge's current name and department; each listed transaction yields as many lines as it has rows in the log |
| Reports.InsertByStamp | streamlit_app.py:270 | inserting into a newest-first listing keeps it newest first and adds exactly one line |
| Reports.SortNewestFirst | streamlit_app.py:270 | the sort orders lines newest first and is a permutation of its input |
| Reports.History | streamlit_app.py:244-292 | the history is newest first, is a permutation of the filtered join, holds exactly the lines of transactions that pass the join and the filters, and holds each such line as many times as its transaction occurs in the log |
| Interplay.HistoryForgetsDeletedStaff | streamlit_app.py:208-223 | after a staff member is deleted no history line carries that badge, whatever the filters |
| Interplay.ScanShowsInHistory | streamlit_app.py:382-390 | a logged scan adds exactly one more copy of its line to the history, with its validity, whenever the filters let its department and day through; the line reads `VALID` exactly when the kiosk reported `Sukses` |
| Interplay.StatusPredictsScan | streamlit_app.py:326-337 | for non-admin staff the report's `Selesai` means the next scan today is rejected with the kiosk's `Peringatan`, and `Tersedia` means it is granted with one ration fewer than the line shows |
| Interplay.FormStaffGetsOneRation | streamlit_app.py:172 | staff added with the default quota of 1 (the form always passes it, lines 543 and 560) are granted their first scan of a day with nothing left and rejected as 1/1 on the second, both logged |
| Interplay.AdminBadgeCanBeDemoted | streamlit_app.py:186-199 | editing does not protect the admin badge: moved out of `Admin_Akses`, its scan is logged as an ordinary one and, with quota 0, rejected |
| Seeding.DeletedDefaultDepartmentReturns | streamlit_app.py:72-77 | the seeding that follows every administrative action puts a deleted default department back, while its former members stay in `Tidak Ditentukan` with name and quota unchanged |
| Interplay.NewDepartmentRoundTrip | streamlit_app.py:142-165 | a department added, given one new member and deleted again moves that member to `Tidak Ditentukan`, reports one reassignment and leaves the department set as it was |
| TextOrder.BelowTotal | streamlit_app.py:138 | the text order the listings sort by is total: two different names are always ordered one way or the other |
| TextOrder.BelowTransitive | streamlit_app.py:138 | the text order the listings sort by is transitive |
| TextOrder.InsertText | streamlit_app.py:138 | inserting a new name into an ascending listing keeps it strictly ascending and adds exactly that name |

## Left out

- The Streamlit UI and session state: modes, forms, `st.rerun`, and the
  admin flag that the scan sets. Admin escalation is modelled as the
  `AdminAccess` outcome only.
- SQLite connection, commit and rollback plumbing. Each operation is one
  atomic transition. The generic `except Exception` branches of
  `edit_staf`, `hapus_staf` and `hapus_departemen` are left out, because
  the model has no storage failures.
- The camera pipeline (`BarcodeProcessor`, pyzbar decoding, the 3-second
  debounce). These are foreign libraries running on a worker thread with
  float clock readings. A scan takes the decoded badge as a parameter.
- Clock reads. `date.today()` and `datetime.now()` are the parameters
  `today` and `now` of `Admission.Scan`, and the report date is a
  parameter of `DailyRationReport`.
- Message texts, pandas DataFrames and CSV export. Outcomes carry the
  tags and the numbers the messages print. The history's
  `VALID` / `BATAS (Ditolak)` and the report's `Selesai` / `Tersedia`
  labels are `StatusLabel` and `Label`.
- `get_staf_by_barcode` and `tampil_data_staf`: plain lookups that feed
  UI widgets.
- The dashboard's removal of `Admin_Akses` lines from the daily report
  (line 759) and from the transaction history (line 809): it is UI code, so
  `DailyRationReport` and `History` include those lines.
- The concurrent double-scan race. The model is sequential.
- NULL values: Python never passes `None` for a badge, name or department
  in these calls, so strings are never absent.
- Admission.ScanPreservesValid: assumes the logged timestamp falls on the
  counted day. The source reads the date and the time separately, so a
  scan exactly at midnight can log a valid row on the next day without
  counting it against that day.
- Reports.History: says nothing about the relative order of lines with
  equal timestamps, because SQLite does not define it.
- Reports.DailyRationReport: same for lines with equal names.
- Tables.Without: states which rows remain, not that they keep their log
  order. No consumer of the log depends on the order of the rows.
