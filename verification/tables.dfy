/** The three tables of the canteen ration database (staff, departments,
    transactions) as one immutable value, with the counting functions the
    admission rule and the reports share and the invariants every operation
    keeps. */
module Tables {

  type Badge = string

  /** The constants of the application's configuration block. */
  const AdminDepartment: string := "Admin_Akses"
  const AdminBadge: Badge := "9999Z"
  const AdminName: string := "Admin Master"
  /** The fallback department that members of a deleted department move to. */
  const Unassigned: string := "Tidak Ditentukan"
  const DefaultDepartments: seq<string> :=
    ["Produksi", "HRD", "Keuangan", "IT", "Marketing", "Gudang", "Umum", AdminDepartment, Unassigned]
  /** Column default of `jatah_harian`, also the quota the add-staff form passes. */
  const DefaultQuota: int := 1

  /** Timestamps are microseconds on the local clock (the resolution of a
      Python `datetime`); a calendar day is what SQLite's DATE() extracts. */
  const MicrosPerDay: int := 86_400_000_000

  /** One row of `staf`; the badge is the key of the map that holds it. */
  datatype Staff = Staff(name: string, department: string, quota: int)

  /** One row of `transaksi`: `valid` is true when a ration was handed out. */
  datatype Transaction = Transaction(badge: Badge, stamp: int, valid: bool)

  datatype Store = Store(
    staff: map<Badge, Staff>,
    departments: set<string>,
    transactions: seq<Transaction>)

  /** The database right after its tables are created. */
  const EmptyStore: Store := Store(map[], {}, [])

  /** Calendar day of a timestamp (floor division; the divisor is positive). */
  function Day(stamp: int): int
  {
    stamp / MicrosPerDay
  }

  /** A transaction that consumes one ration of `badge` on `day`. */
  predicate CountsToward(t: Transaction, badge: Badge, day: int)
  {
    t.badge == badge && t.valid && Day(t.stamp) == day
  }

  /** The rations `badge` has drawn on `day`: valid rows only, so rejected
      scans never count against the quota. */
  function CountValid(txs: seq<Transaction>, badge: Badge, day: int): (n: nat)
    ensures n <= |txs|
  {
    if txs == [] then 0
    else CountValid(txs[..|txs| - 1], badge, day)
         + (if CountsToward(txs[|txs| - 1], badge, day) then 1 else 0)
  }

  /** The number of rows of `badge` in the log, valid or not. */
  function RowsOf(txs: seq<Transaction>, badge: Badge): nat
  {
    if txs == [] then 0
    else RowsOf(txs[..|txs| - 1], badge) + (if txs[|txs| - 1].badge == badge then 1 else 0)
  }

  /** The transactions that remain after deleting every row of `badge`, in
      their original order: each row of another badge is kept as often as
      it occurs, and exactly the rows of `badge` are gone. */
  function Without(txs: seq<Transaction>, badge: Badge): (r: seq<Transaction>)
    ensures |r| <= |txs|
    ensures |r| == |txs| - RowsOf(txs, badge)
    ensures forall t :: t in r <==> t in txs && t.badge != badge
    ensures forall t {:trigger multiset(r)[t]} :: multiset(r)[t] == if t.badge == badge then 0 else multiset(txs)[t]
  {
    if txs == [] then []
    else
      var init := txs[..|txs| - 1];
      var rest := Without(init, badge);
      var last := txs[|txs| - 1];
      assert txs == init + [last];
      assert forall t :: t in txs <==> t in init || t == last;
      if last.badge == badge then rest else rest + [last]
  }

  /** A negative quota grants nothing, exactly like a zero quota. */
  function Allowance(quota: int): nat
  {
    if quota < 0 then 0 else quota
  }

  /** Every transaction belongs to a registered staff member (kept by the
      cascade of staff deletion, not by a foreign key). */
  ghost predicate RefIntegrity(st: Store)
  {
    forall i :: 0 <= i < |st.transactions| ==> st.transactions[i].badge in st.staff
  }

  /** No staff member has ever drawn more valid rations on one day than
      the quota allows. */
  ghost predicate QuotaRespected(st: Store)
  {
    forall b, d :: b in st.staff ==> CountValid(st.transactions, b, d) <= Allowance(st.staff[b].quota)
  }

  /** The administrative badge and both reserved departments exist. */
  ghost predicate ReservedPresent(st: Store)
  {
    && AdminBadge in st.staff
    && AdminDepartment in st.departments
    && Unassigned in st.departments
  }

  /** What holds of any store the operations build, before seeding. */
  ghost predicate Consistent(st: Store)
  {
    RefIntegrity(st) && QuotaRespected(st)
  }

  /** What holds of the store once the application has started. */
  ghost predicate Valid(st: Store)
  {
    Consistent(st) && ReservedPresent(st)
  }

  /** Appending one row changes the count by exactly that row's contribution. */
  lemma CountValidAppend(txs: seq<Transaction>, t: Transaction, badge: Badge, day: int)
    ensures CountValid(txs + [t], badge, day)
            == CountValid(txs, badge, day) + (if CountsToward(t, badge, day) then 1 else 0)
  {
    assert (txs + [t])[..|txs|] == txs;
  }

  /** A badge with no row in the log has drawn nothing, and conversely a zero
      count means no row of the log counts for that badge and day. */
  lemma {:induction false} CountValidZero(txs: seq<Transaction>, badge: Badge, day: int)
    ensures CountValid(txs, badge, day) == 0
            <==> forall i :: 0 <= i < |txs| ==> !CountsToward(txs[i], badge, day)
  {
    if txs != [] {
      var init := txs[..|txs| - 1];
      CountValidZero(init, badge, day);
      assert forall i :: 0 <= i < |init| ==> init[i] == txs[i];
    }
  }

  /** Deleting a badge's rows zeroes its count and leaves every other
      badge's count as it was. */
  lemma {:induction false} CountValidWithout(txs: seq<Transaction>, removed: Badge, badge: Badge, day: int)
    ensures CountValid(Without(txs, removed), badge, day)
            == if badge == removed then 0 else CountValid(txs, badge, day)
  {
    if txs != [] {
      var init := txs[..|txs| - 1];
      var last := txs[|txs| - 1];
      CountValidWithout(init, removed, badge, day);
      if last.badge != removed {
        CountValidAppend(Without(init, removed), last, badge, day);
      }
    }
  }
}
