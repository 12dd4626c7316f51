/** The seeding the application performs every time its script runs, which
    is at start-up and again after every successful administrative action:
    the default departments, two sample staff members for an empty
    directory, and the administrative badge whenever it is missing. */
module Seeding {
  import opened Tables
  import Admission
  import Directory

  /** Sample staff inserted only into an empty staff table. */
  const SampleStaff: map<Badge, Staff> :=
    map["1001A" := Staff("Budi Santoso", "Produksi", 1), "2002B" := Staff("Siti Aminah", "HRD", 1)]

  /** The administrative record inserted when its badge is missing. */
  const AdminRecord: Staff := Staff(AdminName, AdminDepartment, 0)

  /** Seeds an existing store. Inserting a default department that already
      exists fails on the UNIQUE constraint and is skipped; existing staff
      records are never overwritten. */
  function Seed(st: Store): (r: Store)
    ensures forall n :: n in r.departments <==> n in st.departments || n in DefaultDepartments
    ensures AdminBadge in r.staff
    ensures AdminBadge !in st.staff ==> r.staff[AdminBadge] == AdminRecord
    ensures forall b :: b in st.staff ==> b in r.staff && r.staff[b] == st.staff[b]
    ensures st.staff != map[] ==> r.staff.Keys == st.staff.Keys + {AdminBadge}
    ensures st.staff == map[] ==> r.staff == SampleStaff[AdminBadge := AdminRecord]
    ensures r.transactions == st.transactions
  {
    var departments := st.departments + set n | n in DefaultDepartments;
    var staff := if st.staff == map[] then SampleStaff else st.staff;
    var staff' := if AdminBadge in staff then staff else staff[AdminBadge := AdminRecord];
    Store(staff', departments, st.transactions)
  }

  /** The store of a first start. */
  const InitialStore: Store := Seed(EmptyStore)

  /** Seeding a consistent store yields a valid one: the reserved records
      exist and the records it inserts have no transactions yet. */
  lemma SeedEstablishesValid(st: Store)
    requires Consistent(st)
    ensures Valid(Seed(st))
  {
    var r := Seed(st);
    assert AdminDepartment in DefaultDepartments && Unassigned in DefaultDepartments;
    forall b, d | b in r.staff
      ensures CountValid(r.transactions, b, d) <= Allowance(r.staff[b].quota)
    {
      if b !in st.staff {
        CountValidZero(st.transactions, b, d);
      }
    }
  }

  /** Running the seeding again, with no operation in between, changes
      nothing. */
  lemma SeedIdempotent(st: Store)
    ensures Seed(Seed(st)) == Seed(st)
  {
    var once := Seed(st);
    assert once.staff != map[] by {
      assert AdminBadge in once.staff;
    }
    var twice := Seed(once);
    assert twice.staff.Keys == once.staff.Keys;
  }

  /** A first start holds the nine default departments, the two sample staff
      members and the administrative badge with quota 0, and no transactions. */
  lemma InitialStoreContents()
    ensures InitialStore.departments == set n | n in DefaultDepartments
    ensures InitialStore.staff == SampleStaff[AdminBadge := AdminRecord]
    ensures InitialStore.transactions == []
    ensures Valid(InitialStore)
  {
    SeedEstablishesValid(EmptyStore);
  }

  /** A staff member with quota 1 scanning twice on the same day is granted
      once with nothing left, then rejected with 1/1 used; both rows are
      logged, the first valid and the second not. */
  lemma QuotaOfOneScenario(day: int, first: int, second: int)
    requires Day(first) == day && Day(second) == day
    ensures var r1 := Admission.Scan(InitialStore, "1001A", day, first);
            var r2 := Admission.Scan(r1.store, "1001A", day, second);
            && r1.outcome == Admission.Granted(0)
            && r2.outcome == Admission.Rejected(1, 1)
            && r2.store.transactions == [Transaction("1001A", first, true), Transaction("1001A", second, false)]
  {
    InitialStoreContents();
    var r1 := Admission.Scan(InitialStore, "1001A", day, first);
    assert CountValid([Transaction("1001A", first, true)], "1001A", day) == 1 by {
      CountValidAppend([], Transaction("1001A", first, true), "1001A", day);
    }
  }

  /** The seeding runs again after every administrative action, so deleting
      a default department does not last: the next run inserts the name
      again, while its former members stay in the fallback department. */
  lemma DeletedDefaultDepartmentReturns(st: Store, name: string)
    requires name in DefaultDepartments && !Directory.IsReserved(name)
    ensures var after := Seed(Directory.DeleteDepartment(st, name).store);
            && after.departments == Seed(st).departments
            && forall b :: b in st.staff && st.staff[b].department == name ==>
                 after.staff[b] == Staff(st.staff[b].name, Unassigned, st.staff[b].quota)
  {
    var after := Seed(Directory.DeleteDepartment(st, name).store);
    assert after.departments == Seed(st).departments;
  }
}
