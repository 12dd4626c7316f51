/** The admission rule of the kiosk: one badge scan either fails, escalates
    to the administrative mode, or logs exactly one transaction that is
    valid iff the day's quota still has room. */
module Admission {
  import opened Tables

  datatype ScanOutcome =
    | UnknownBadge
    | AdminAccess(name: string)
    | Rejected(used: nat, quota: int)
    | Granted(remaining: int)
  {
    /** The status tag of the outcome, as the kiosk shows it. */
    function Tag(): string
    {
      match this
      case UnknownBadge => "Gagal"
      case AdminAccess(_) => "Sukses_Admin"
      case Rejected(_, _) => "Peringatan"
      case Granted(_) => "Sukses"
    }

    /** Scans that leave the store as it was. */
    predicate RecordsNothing()
    {
      UnknownBadge? || AdminAccess?
    }
  }

  datatype ScanResult = ScanResult(store: Store, outcome: ScanOutcome)

  /** One scan of `badge`. `today` is the date read when the scan starts and
      `now` the timestamp written into the log; the two are separate clock
      reads. */
  function Scan(st: Store, badge: Badge, today: int, now: int): (r: ScanResult)
    ensures r.outcome.UnknownBadge? <==> badge !in st.staff
    ensures r.outcome.AdminAccess? <==> badge in st.staff && st.staff[badge].department == AdminDepartment
    ensures r.outcome.RecordsNothing() ==> r.store == st
    ensures r.store.staff == st.staff && r.store.departments == st.departments
    ensures !r.outcome.RecordsNothing() ==>
              r.store.transactions == st.transactions + [Transaction(badge, now, r.outcome.Granted?)]
    ensures r.outcome.Granted? ==>
              && badge in st.staff
              && CountValid(st.transactions, badge, today) < st.staff[badge].quota
              && r.outcome.remaining == st.staff[badge].quota - (CountValid(st.transactions, badge, today) + 1)
    ensures r.outcome.Rejected? ==>
              && badge in st.staff
              && r.outcome.used == CountValid(st.transactions, badge, today)
              && r.outcome.quota == st.staff[badge].quota
              && r.outcome.used >= r.outcome.quota
  {
    if badge !in st.staff then
      ScanResult(st, UnknownBadge)
    else
      var s := st.staff[badge];
      if s.department == AdminDepartment then
        ScanResult(st, AdminAccess(s.name))
      else
        var used := CountValid(st.transactions, badge, today);
        if used >= s.quota then
          ScanResult(st.(transactions := st.transactions + [Transaction(badge, now, false)]), Rejected(used, s.quota))
        else
          ScanResult(st.(transactions := st.transactions + [Transaction(badge, now, true)]), Granted(s.quota - (used + 1)))
  }

  /** The only count a scan moves is the scanned badge's count on the day of
      its timestamp, and only when the ration is granted. */
  lemma ScanCounts(st: Store, badge: Badge, today: int, now: int, b: Badge, d: int)
    ensures CountValid(Scan(st, badge, today, now).store.transactions, b, d)
            == CountValid(st.transactions, b, d)
               + (if Scan(st, badge, today, now).outcome.Granted? && b == badge && d == Day(now) then 1 else 0)
  {
    var r := Scan(st, badge, today, now);
    if !r.outcome.RecordsNothing() {
      CountValidAppend(st.transactions, Transaction(badge, now, r.outcome.Granted?), b, d);
    }
  }

  /** A scan whose timestamp falls on the day it counted keeps the store
      valid; in particular the quota is never exceeded by valid rows. */
  lemma ScanPreservesValid(st: Store, badge: Badge, today: int, now: int)
    requires Valid(st)
    requires Day(now) == today
    ensures Valid(Scan(st, badge, today, now).store)
  {
    var r := Scan(st, badge, today, now);
    forall b, d | b in r.store.staff
      ensures CountValid(r.store.transactions, b, d) <= Allowance(r.store.staff[b].quota)
    {
      ScanCounts(st, badge, today, now, b, d);
    }
  }

  datatype ScanRun = ScanRun(store: Store, outcomes: seq<ScanOutcome>)

  /** Scans of the same badge at the successive timestamps `nows`, all
      counted against the same day. */
  function ScanAll(st: Store, badge: Badge, today: int, nows: seq<int>): (r: ScanRun)
    ensures |r.outcomes| == |nows|
    decreases |nows|
  {
    if nows == [] then ScanRun(st, [])
    else
      var first := Scan(st, badge, today, nows[0]);
      var rest := ScanAll(first.store, badge, today, nows[1..]);
      ScanRun(rest.store, [first.outcome] + rest.outcomes)
  }

  /** One scan of a non-administrative badge whose count has not passed the
      quota, stamped on the counted day. */
  lemma ScanStep(st: Store, badge: Badge, today: int, now: int)
    requires badge in st.staff && st.staff[badge].department != AdminDepartment
    requires CountValid(st.transactions, badge, today) <= st.staff[badge].quota
    requires Day(now) == today
    ensures var r := Scan(st, badge, today, now);
            var used := CountValid(st.transactions, badge, today);
            var quota := st.staff[badge].quota;
            && r.outcome == (if used < quota then Granted(quota - used - 1) else Rejected(quota, quota))
            && CountValid(r.store.transactions, badge, today) == (if used < quota then used + 1 else used)
            && |r.store.transactions| == |st.transactions| + 1
            && r.store.staff == st.staff
  {
    ScanCounts(st, badge, today, now, badge, today);
  }

  /** Successive scans on one day move the day's count up to the quota and
      no further, and every scan is logged. */
  lemma {:induction false} ScanAllCount(st: Store, badge: Badge, today: int, nows: seq<int>)
    requires badge in st.staff && st.staff[badge].department != AdminDepartment
    requires CountValid(st.transactions, badge, today) <= st.staff[badge].quota
    requires forall i :: 0 <= i < |nows| ==> Day(nows[i]) == today
    ensures var r := ScanAll(st, badge, today, nows);
            var used := CountValid(st.transactions, badge, today);
            var quota := st.staff[badge].quota;
            && CountValid(r.store.transactions, badge, today)
               == (if used + |nows| < quota then used + |nows| else quota)
            && |r.store.transactions| == |st.transactions| + |nows|
            && r.store.staff == st.staff
    decreases |nows|
  {
    if nows != [] {
      var first := Scan(st, badge, today, nows[0]);
      ScanStep(st, badge, today, nows[0]);
      var tail := nows[1..];
      assert forall i :: 0 <= i < |tail| ==> tail[i] == nows[i + 1];
      ScanAllCount(first.store, badge, today, tail);
    }
  }

  /** The outcome of the scan that follows `k` earlier ones on the same day,
      for a badge that had drawn `used` of `quota` rations before them. */
  function NthOutcome(used: nat, quota: int, k: nat): ScanOutcome
    requires used <= quota
  {
    if used + k < quota then Granted(quota - (used + k) - 1) else Rejected(quota, quota)
  }

  /** Successive scans on one day: while the count is below the quota each
      scan is granted with one ration fewer left; from then on every scan is
      rejected reporting used == quota. */
  lemma {:induction false} ScanAllOutcomes(st: Store, badge: Badge, today: int, nows: seq<int>)
    requires badge in st.staff && st.staff[badge].department != AdminDepartment
    requires CountValid(st.transactions, badge, today) <= st.staff[badge].quota
    requires forall i :: 0 <= i < |nows| ==> Day(nows[i]) == today
    ensures forall i :: 0 <= i < |nows| ==>
              ScanAll(st, badge, today, nows).outcomes[i]
              == NthOutcome(CountValid(st.transactions, badge, today), st.staff[badge].quota, i)
    decreases |nows|
  {
    if nows != [] {
      var quota := st.staff[badge].quota;
      var used := CountValid(st.transactions, badge, today);
      var first := Scan(st, badge, today, nows[0]);
      ScanStep(st, badge, today, nows[0]);
      var next := CountValid(first.store.transactions, badge, today);
      var tail := nows[1..];
      assert forall i :: 0 <= i < |tail| ==> tail[i] == nows[i + 1];
      ScanAllOutcomes(first.store, badge, today, tail);
      var rest := ScanAll(first.store, badge, today, tail);
      var outcomes := ScanAll(st, badge, today, nows).outcomes;
      assert outcomes == [first.outcome] + rest.outcomes;
      forall i | 0 < i < |nows|
        ensures outcomes[i] == NthOutcome(used, quota, i)
      {
        assert outcomes[i] == rest.outcomes[i - 1] == NthOutcome(next, quota, i - 1);
      }
    }
  }

  /** With a quota of Q and nothing drawn yet today, Q scans are granted and
      the scan after them is rejected and logged as invalid. */
  lemma QuotaExhausted(st: Store, badge: Badge, today: int, nows: seq<int>)
    requires badge in st.staff && st.staff[badge].department != AdminDepartment
    requires st.staff[badge].quota >= 0
    requires CountValid(st.transactions, badge, today) == 0
    requires |nows| == st.staff[badge].quota + 1
    requires forall i :: 0 <= i < |nows| ==> Day(nows[i]) == today
    ensures var r := ScanAll(st, badge, today, nows);
            var q := st.staff[badge].quota;
            && (forall i :: 0 <= i < q ==> r.outcomes[i].Granted?)
            && r.outcomes[q] == Rejected(q, q)
            && |r.store.transactions| == |st.transactions| + |nows|
            && r.store.transactions[|r.store.transactions| - 1] == Transaction(badge, nows[q], false)
  {
    ScanAllOutcomes(st, badge, today, nows);
    ScanAllCount(st, badge, today, nows);
    ScanAllLast(st, badge, today, nows);
  }

  /** The last row of the log after a run is the last scan's row, valid iff
      that scan was granted. */
  lemma {:induction false} ScanAllLast(st: Store, badge: Badge, today: int, nows: seq<int>)
    requires badge in st.staff && st.staff[badge].department != AdminDepartment
    requires nows != []
    ensures var r := ScanAll(st, badge, today, nows);
            && |r.store.transactions| > 0
            && r.store.transactions[|r.store.transactions| - 1]
               == Transaction(badge, nows[|nows| - 1], r.outcomes[|nows| - 1].Granted?)
    decreases |nows|
  {
    var first := Scan(st, badge, today, nows[0]);
    if |nows| > 1 {
      ScanAllLast(first.store, badge, today, nows[1..]);
    }
  }
}
