/** Administrative maintenance of the staff directory and the department
    list. Each operation is one atomic transition of the store together with
    the outcome reported to the administrator. */
module Directory {
  import opened Tables

  datatype Outcome =
    | Added
    | Updated
    | StaffDeleted(transactionsRemoved: nat)
    | DepartmentDeleted(staffReassigned: nat)
    | DuplicateBadge
    | DuplicateDepartment
    | NotFound
    | Protected
  {
    /** The boolean half of the (ok, message) pair the operations return. */
    predicate Succeeded()
    {
      Added? || Updated? || StaffDeleted? || DepartmentDeleted?
    }
  }

  datatype Reply = Reply(store: Store, outcome: Outcome)

  /** The departments that can never be deleted. */
  predicate IsReserved(name: string)
  {
    name == AdminDepartment || name == Unassigned
  }

  /** Registers a new staff member. The badge column is UNIQUE, so a badge
      already registered fails; the department is not checked. */
  function AddStaff(st: Store, badge: Badge, name: string, department: string, quota: int): (r: Reply)
    ensures r.outcome.Succeeded() <==> badge !in st.staff
    ensures badge in st.staff ==> r == Reply(st, DuplicateBadge)
    ensures badge !in st.staff ==>
              && r.outcome == Added
              && r.store.staff.Keys == st.staff.Keys + {badge}
              && r.store.staff[badge] == Staff(name, department, quota)
              && (forall b :: b in st.staff ==> r.store.staff[b] == st.staff[b])
              && r.store.departments == st.departments
              && r.store.transactions == st.transactions
  {
    if badge in st.staff then Reply(st, DuplicateBadge)
    else Reply(st.(staff := st.staff[badge := Staff(name, department, quota)]), Added)
  }

  /** Changes the name and department of a registered badge. Neither the
      administrative badge nor the existence of the department is checked. */
  function EditStaff(st: Store, badge: Badge, name: string, department: string): (r: Reply)
    ensures r.outcome.Succeeded() <==> badge in st.staff
    ensures badge !in st.staff ==> r == Reply(st, NotFound)
    ensures badge in st.staff ==>
              && r.outcome == Updated
              && r.store.staff.Keys == st.staff.Keys
              && r.store.staff[badge].name == name
              && r.store.staff[badge].department == department
              && r.store.staff[badge].quota == st.staff[badge].quota
              && (forall b :: b in st.staff && b != badge ==> r.store.staff[b] == st.staff[b])
              && r.store.departments == st.departments
              && r.store.transactions == st.transactions
  {
    if badge !in st.staff then Reply(st, NotFound)
    else
      var s := st.staff[badge];
      Reply(st.(staff := st.staff[badge := s.(name := name, department := department)]), Updated)
  }

  /** Deletes a staff member with all of their transactions. The transaction
      rows are deleted before it is known whether the staff row exists, so a
      missing badge still loses its transactions and reports NotFound. */
  function DeleteStaff(st: Store, badge: Badge): (r: Reply)
    ensures badge == AdminBadge ==> r == Reply(st, Protected)
    ensures badge != AdminBadge ==>
              && (forall t :: t in r.store.transactions <==> t in st.transactions && t.badge != badge)
              && (forall t {:trigger multiset(r.store.transactions)[t]} :: multiset(r.store.transactions)[t]
                               == if t.badge == badge then 0 else multiset(st.transactions)[t])
              && |r.store.transactions| <= |st.transactions|
              && r.store.staff.Keys == st.staff.Keys - {badge}
              && (forall b :: b in r.store.staff ==> r.store.staff[b] == st.staff[b])
              && r.store.departments == st.departments
              && (r.outcome.Succeeded() <==> badge in st.staff)
              && (badge !in st.staff ==> r.outcome == NotFound)
              && (badge in st.staff ==>
                    r.outcome == StaffDeleted(RowsOf(st.transactions, badge)))
  {
    if badge == AdminBadge then Reply(st, Protected)
    else
      var kept := Without(st.transactions, badge);
      var st' := Store(st.staff - {badge}, st.departments, kept);
      if badge in st.staff then Reply(st', StaffDeleted(RowsOf(st.transactions, badge)))
      else Reply(st', NotFound)
  }

  /** Adds a department; the name column is UNIQUE, so an existing name fails. */
  function AddDepartment(st: Store, name: string): (r: Reply)
    ensures r.outcome.Succeeded() <==> name !in st.departments
    ensures name in st.departments ==> r == Reply(st, DuplicateDepartment)
    ensures name !in st.departments ==>
              && r.outcome == Added
              && r.store.departments == st.departments + {name}
              && r.store.staff == st.staff
              && r.store.transactions == st.transactions
  {
    if name in st.departments then Reply(st, DuplicateDepartment)
    else Reply(st.(departments := st.departments + {name}), Added)
  }

  /** The badges whose department is `name`. */
  function MembersOf(staff: map<Badge, Staff>, name: string): (m: set<Badge>)
    ensures forall b :: b in m <==> b in staff && staff[b].department == name
  {
    set b | b in staff && staff[b].department == name
  }

  /** Moves every member of `name` to the fallback department. */
  function Reassign(staff: map<Badge, Staff>, name: string): map<Badge, Staff>
  {
    map b | b in staff :: if staff[b].department == name then staff[b].(department := Unassigned) else staff[b]
  }

  /** Deletes a department after moving its members to the fallback
      department. Only the two reserved names are refused; a name that is
      not in the list still reports success. */
  function DeleteDepartment(st: Store, name: string): (r: Reply)
    ensures IsReserved(name) ==> r == Reply(st, Protected)
    ensures !IsReserved(name) ==>
              && r.outcome == DepartmentDeleted(|MembersOf(st.staff, name)|)
              && r.store.departments == st.departments - {name}
              && r.store.staff.Keys == st.staff.Keys
              && (forall b :: b in st.staff && st.staff[b].department == name ==>
                    r.store.staff[b] == Staff(st.staff[b].name, Unassigned, st.staff[b].quota))
              && (forall b :: b in st.staff && st.staff[b].department != name ==>
                    r.store.staff[b] == st.staff[b])
              && r.store.transactions == st.transactions
  {
    if IsReserved(name) then Reply(st, Protected)
    else
      var moved := |MembersOf(st.staff, name)|;
      Reply(Store(Reassign(st.staff, name), st.departments - {name}, st.transactions), DepartmentDeleted(moved))
  }

  // ---------------------------------------------------------------------
  // Invariants kept by every directory operation

  lemma AddStaffPreservesValid(st: Store, badge: Badge, name: string, department: string, quota: int)
    requires Valid(st)
    ensures Valid(AddStaff(st, badge, name, department, quota).store)
  {
    var r := AddStaff(st, badge, name, department, quota);
    forall b, d | b in r.store.staff
      ensures CountValid(r.store.transactions, b, d) <= Allowance(r.store.staff[b].quota)
    {
      if b !in st.staff {
        // a fresh badge has no rows, since every row belongs to a registered badge
        CountValidZero(st.transactions, b, d);
      }
    }
  }

  lemma EditStaffPreservesValid(st: Store, badge: Badge, name: string, department: string)
    requires Valid(st)
    ensures Valid(EditStaff(st, badge, name, department).store)
  {
  }

  lemma DeleteStaffPreservesValid(st: Store, badge: Badge)
    requires Valid(st)
    ensures Valid(DeleteStaff(st, badge).store)
  {
    var r := DeleteStaff(st, badge);
    if badge != AdminBadge {
      forall i | 0 <= i < |r.store.transactions|
        ensures r.store.transactions[i].badge in r.store.staff
      {
        assert r.store.transactions[i] in st.transactions;
      }
      forall b, d | b in r.store.staff
        ensures CountValid(r.store.transactions, b, d) <= Allowance(r.store.staff[b].quota)
      {
        CountValidWithout(st.transactions, badge, b, d);
      }
    }
  }

  lemma AddDepartmentPreservesValid(st: Store, name: string)
    requires Valid(st)
    ensures Valid(AddDepartment(st, name).store)
  {
  }

  lemma DeleteDepartmentPreservesValid(st: Store, name: string)
    requires Valid(st)
    ensures Valid(DeleteDepartment(st, name).store)
  {
  }

  // ---------------------------------------------------------------------
  // Partners: inverses, completeness of the cascade and of the reassignment

  /** A store whose log holds no row of `badge` is untouched by deleting
      that badge's rows. */
  lemma {:induction false} WithoutAbsent(txs: seq<Transaction>, badge: Badge)
    requires forall i :: 0 <= i < |txs| ==> txs[i].badge != badge
    ensures Without(txs, badge) == txs
  {
    if txs != [] {
      var init := txs[..|txs| - 1];
      WithoutAbsent(init, badge);
      assert Without(txs, badge) == Without(init, badge) + [txs[|txs| - 1]];
      assert init + [txs[|txs| - 1]] == txs;
    }
  }

  /** Deleting a staff member that was just added restores the store. */
  lemma DeleteStaffUndoesAddStaff(st: Store, badge: Badge, name: string, department: string, quota: int)
    requires RefIntegrity(st)
    requires badge !in st.staff && badge != AdminBadge
    ensures DeleteStaff(AddStaff(st, badge, name, department, quota).store, badge) == Reply(st, StaffDeleted(0))
  {
    WithoutAbsent(st.transactions, badge);
    assert st.staff[badge := Staff(name, department, quota)] - {badge} == st.staff;
  }

  /** Deleting an unregistered badge does delete transaction rows first, but
      in a store with referential integrity there are none to delete. */
  lemma DeleteMissingStaffChangesNothing(st: Store, badge: Badge)
    requires RefIntegrity(st)
    requires badge !in st.staff && badge != AdminBadge
    ensures DeleteStaff(st, badge) == Reply(st, NotFound)
  {
    WithoutAbsent(st.transactions, badge);
    assert st.staff - {badge} == st.staff;
  }

  /** Editing a record back to its previous name and department restores
      the store. */
  lemma EditStaffUndo(st: Store, badge: Badge, name: string, department: string)
    requires badge in st.staff
    ensures var edited := EditStaff(st, badge, name, department).store;
            EditStaff(edited, badge, st.staff[badge].name, st.staff[badge].department) == Reply(st, Updated)
  {
    var edited := EditStaff(st, badge, name, department).store;
    var back := EditStaff(edited, badge, st.staff[badge].name, st.staff[badge].department).store;
    assert back.staff == st.staff;
  }

  /** Deleting a department that was just added, and that no staff record
      names, restores the store. */
  lemma DeleteDepartmentUndoesAdd(st: Store, name: string)
    requires name !in st.departments && !IsReserved(name)
    requires forall b :: b in st.staff ==> st.staff[b].department != name
    ensures DeleteDepartment(AddDepartment(st, name).store, name) == Reply(st, DepartmentDeleted(0))
  {
    assert MembersOf(st.staff, name) == {};
    assert Reassign(st.staff, name) == st.staff;
    assert st.departments + {name} - {name} == st.departments;
  }

  /** After a department is deleted nobody is left in it, and the reported
      count is exactly the number of staff records that changed. */
  lemma DeleteDepartmentComplete(st: Store, name: string)
    requires !IsReserved(name)
    ensures var r := DeleteDepartment(st, name);
            && (forall b :: b in r.store.staff ==> r.store.staff[b].department != name)
            && r.outcome.staffReassigned
               == |set b | b in st.staff && r.store.staff[b] != st.staff[b]|
  {
    var r := DeleteDepartment(st, name);
    var changed := set b | b in st.staff && r.store.staff[b] != st.staff[b];
    assert changed == MembersOf(st.staff, name) by {
      forall b | b in st.staff
        ensures b in changed <==> st.staff[b].department == name
      {
        if st.staff[b].department == name {
          assert r.store.staff[b].department == Unassigned != st.staff[b].department;
        }
      }
    }
  }
}
