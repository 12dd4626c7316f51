/** Properties that relate operations of different components: what the
    reports show after the kiosk and the directory have changed the store. */
module Interplay {
  import opened Tables
  import opened Admission
  import opened Directory
  import opened Reports

  /** After a staff member is deleted, no line of the transaction history
      carries that badge, whatever the filters. */
  lemma HistoryForgetsDeletedStaff(st: Store, badge: Badge, filter: Option<string>, start: Option<int>, end: Option<int>)
    requires badge != AdminBadge
    ensures forall r :: r in History(DeleteStaff(st, badge).store, filter, start, end) ==> r.badge != badge
  {
  }

  /** A scan that is logged shows up in the transaction history with its
      validity, whenever the filters let its department and day through: the
      history holds one more copy of that line than before, and its status
      label reads VALID exactly when the kiosk reported success. */
  lemma ScanShowsInHistory(st: Store, badge: Badge, today: int, now: int,
                           filter: Option<string>, start: Option<int>, end: Option<int>)
    requires badge in st.staff && st.staff[badge].department != AdminDepartment
    requires Selects(filter, st.staff[badge].department) && InRange(Day(now), start, end)
    ensures var r := Scan(st, badge, today, now);
            var row := HistoryRow(now, st.staff[badge].name, st.staff[badge].department, badge, r.outcome.Granted?);
            && row in History(r.store, filter, start, end)
            && multiset(History(r.store, filter, start, end))[row]
               == multiset(History(st, filter, start, end))[row] + 1
            && (row.StatusLabel() == "VALID" <==> r.outcome.Tag() == "Sukses")
  {
    var r := Scan(st, badge, today, now);
    var t := Transaction(badge, now, r.outcome.Granted?);
    assert r.store.transactions == st.transactions + [t];
    assert multiset(r.store.transactions) == multiset(st.transactions) + multiset{t};
    assert t in r.store.transactions;
    assert Listed(r.store, filter, start, end, t) && Listed(st, filter, start, end, t);
    assert RowOf(r.store, t) == RowOf(st, t);
  }

  /** The report's status agrees with the kiosk: for a staff member outside
      the administrative department, a Done line means the next scan today
      is rejected, and an Available line means it is granted with one ration
      fewer than the line shows. */
  lemma StatusPredictsScan(st: Store, today: int, row: DailyRow, now: int)
    requires Describes(st, today, row)
    requires row.department != AdminDepartment
    ensures var outcome := Scan(st, row.badge, today, now).outcome;
            && (row.status == Done <==> outcome.Rejected?)
            && (row.status == Available <==> outcome == Granted(row.remaining - 1))
            && (row.status.Label() == "Selesai" <==> outcome.Tag() == "Peringatan")
  {
  }

  /** Editing does not protect the administrative badge: once it is moved to
      another department its scans no longer open the administrative mode
      but are logged, and with its quota of 0 they are rejected. */
  lemma AdminBadgeCanBeDemoted(st: Store, name: string, department: string, today: int, now: int)
    requires AdminBadge in st.staff && st.staff[AdminBadge].quota == 0
    requires department != AdminDepartment
    ensures var edited := EditStaff(st, AdminBadge, name, department).store;
            var r := Scan(edited, AdminBadge, today, now);
            && r.outcome == Rejected(CountValid(st.transactions, AdminBadge, today), 0)
            && |r.store.transactions| == |st.transactions| + 1
  {
  }

  /** A staff member registered through the add-staff form gets the default
      quota of one ration a day: on a day with nothing drawn yet, the first
      scan is granted with nothing left and the second is rejected as 1/1. */
  lemma FormStaffGetsOneRation(st: Store, badge: Badge, name: string, department: string,
                               today: int, stamp1: int, stamp2: int)
    requires RefIntegrity(st)
    requires badge !in st.staff && department != AdminDepartment
    requires Day(stamp1) == today && Day(stamp2) == today
    ensures var added := AddStaff(st, badge, name, department, DefaultQuota).store;
            var once := Scan(added, badge, today, stamp1);
            var twice := Scan(once.store, badge, today, stamp2);
            && once.outcome == Granted(0)
            && twice.outcome == Rejected(1, 1)
            && twice.store.transactions
               == st.transactions + [Transaction(badge, stamp1, true), Transaction(badge, stamp2, false)]
  {
    var added := AddStaff(st, badge, name, department, DefaultQuota).store;
    CountValidZero(st.transactions, badge, today);
    ScanStep(added, badge, today, stamp1);
    var once := Scan(added, badge, today, stamp1);
    ScanStep(once.store, badge, today, stamp2);
  }


  /** A new department with one new member, deleted again: the member moves
      to the fallback department, one reassignment is reported and the name
      is gone from the list. */
  lemma NewDepartmentRoundTrip(st: Store, department: string, badge: Badge, name: string, quota: int)
    requires department !in st.departments && !IsReserved(department)
    requires badge !in st.staff
    requires forall b :: b in st.staff ==> st.staff[b].department != department
    ensures var s1 := AddDepartment(st, department);
            var s2 := AddStaff(s1.store, badge, name, department, quota);
            var s3 := DeleteDepartment(s2.store, department);
            && s1.outcome == Added && s2.outcome == Added
            && s3.outcome == DepartmentDeleted(1)
            && s3.store.staff == st.staff[badge := Staff(name, Unassigned, quota)]
            && s3.store.departments == st.departments
  {
    var s1 := AddDepartment(st, department);
    var s2 := AddStaff(s1.store, badge, name, department, quota);
    assert MembersOf(s2.store.staff, department) == {badge};
    var s3 := DeleteDepartment(s2.store, department);
    assert s3.store.staff == st.staff[badge := Staff(name, Unassigned, quota)] by {
      assert s3.store.staff.Keys == st.staff.Keys + {badge};
    }
    assert s3.store.departments == st.departments;
  }
}
