/** The read-only views of the administrative mode: the department list,
    the daily ration report and the transaction history. Each is a function
    of the store (and of the date, for the daily report). */
module Reports {
  import opened Tables
  import opened TextOrder

  datatype Option<T> = None | Some(value: T)

  /** The select-box entry that stands for "no department filter". */
  const AllDepartments: string := "Semua Departemen"

  /** Whether a department filter lets a department through. A missing
      filter, an empty one and the "all departments" entry select every
      department. */
  predicate Selects(filter: Option<string>, department: string)
  {
    filter.None? || filter.value == "" || filter.value == AllDepartments || filter.value == department
  }

  // ---------------------------------------------------------------------
  // Department list

  /** All department names, sorted by name. */
  method DepartmentList(st: Store) returns (names: seq<string>)
    ensures StrictlyAscending(names)
    ensures forall n :: n in names <==> n in st.departments
    ensures |names| == |st.departments|
  {
    names := [];
    var rest := st.departments;
    while rest != {}
      invariant rest <= st.departments
      invariant StrictlyAscending(names)
      invariant forall n :: n in names <==> n in st.departments && n !in rest
      invariant |names| + |rest| == |st.departments|
      decreases |rest|
    {
      var n :| n in rest;
      names := InsertText(names, n);
      rest := rest - {n};
    }
  }

  // ---------------------------------------------------------------------
  // Daily ration report

  datatype RationStatus = Done | Available
  {
    function Label(): string
    {
      if Done? then "Selesai" else "Tersedia"
    }
  }

  datatype DailyRow = DailyRow(
    name: string,
    department: string,
    badge: Badge,
    quota: int,
    used: nat,
    remaining: int,
    status: RationStatus)

  /** `row` is the report line of its badge: the badge's record, the valid
      rations drawn on `today`, what is left of the quota, and Done exactly
      when nothing is left. */
  ghost predicate Describes(st: Store, today: int, row: DailyRow)
  {
    && row.badge in st.staff
    && row.name == st.staff[row.badge].name
    && row.department == st.staff[row.badge].department
    && row.quota == st.staff[row.badge].quota
    && row.used == CountValid(st.transactions, row.badge, today)
    && row.remaining == row.quota - row.used
    && (row.status == Done <==> row.remaining <= 0)
  }

  function LineFor(st: Store, badge: Badge, today: int): (row: DailyRow)
    requires badge in st.staff
    ensures row.badge == badge && Describes(st, today, row)
  {
    var s := st.staff[badge];
    var used := CountValid(st.transactions, badge, today);
    DailyRow(s.name, s.department, badge, s.quota, used, s.quota - used,
             if s.quota - used <= 0 then Done else Available)
  }

  /** Sorted by name, equal names in any order. */
  ghost predicate NameOrdered(rows: seq<DailyRow>)
  {
    forall i, j :: 0 <= i < j < |rows| ==> !Below(rows[j].name, rows[i].name)
  }

  ghost predicate NoRepeats<T>(s: seq<T>)
  {
    forall i, j :: 0 <= i < j < |s| ==> s[i] != s[j]
  }

  /** No line of `rows` sorts before `name`. */
  ghost predicate NoneBefore(rows: seq<DailyRow>, name: string)
  {
    forall i :: 0 <= i < |rows| ==> !Below(rows[i].name, name)
  }

  lemma NameOrderedCons(h: DailyRow, rows: seq<DailyRow>)
    requires NameOrdered(rows) && NoneBefore(rows, h.name)
    ensures NameOrdered([h] + rows)
  {
  }

  lemma NoRepeatsCons<T>(h: T, s: seq<T>)
    ensures NoRepeats(s) && h !in s ==> NoRepeats([h] + s)
  {
  }

  /** A name below the first of a sorted sequence is below all of it. */
  lemma BelowFirstBelowAll(name: string, rows: seq<DailyRow>)
    requires NameOrdered(rows) && rows != [] && Below(name, rows[0].name)
    ensures NoneBefore(rows, name)
  {
    forall j | 0 <= j < |rows|
      ensures !Below(rows[j].name, name)
    {
      if j > 0 {
        BelowTotal(rows[0].name, rows[j].name);
        if Below(rows[0].name, rows[j].name) {
          BelowTransitive(name, rows[0].name, rows[j].name);
        }
      }
      BelowAsymmetric(name, rows[j].name);
    }
  }

  /** The bound carries over to any sequence drawn from the same lines plus
      one more line that also respects it. */
  lemma NoneBeforeMembers(rows: seq<DailyRow>, x: DailyRow, r: seq<DailyRow>, name: string)
    requires NoneBefore(rows, name) && !Below(x.name, name)
    requires forall y :: y in r ==> y in rows || y == x
    ensures NoneBefore(r, name)
  {
    forall j | 0 <= j < |r|
      ensures !Below(r[j].name, name)
    {
      assert r[j] in r;
      if r[j] != x {
        var k :| 0 <= k < |rows| && rows[k] == r[j];
      }
    }
  }

  /** Inserts a line after every line whose name does not sort after it. */
  function InsertLine(rows: seq<DailyRow>, x: DailyRow): (r: seq<DailyRow>)
    requires NameOrdered(rows)
    ensures NameOrdered(r)
    ensures |r| == |rows| + 1
    ensures forall y :: y in r <==> y in rows || y == x
    ensures NoRepeats(rows) && x !in rows ==> NoRepeats(r)
  {
    if rows == [] then [x]
    else if Below(x.name, rows[0].name) then
      BelowFirstBelowAll(x.name, rows);
      NameOrderedCons(x, rows);
      [x] + rows
    else
      var h := rows[0];
      var tail := rows[1..];
      var rest := InsertLine(tail, x);
      assert rows == [h] + tail;
      NoneBeforeMembers(tail, x, rest, h.name);
      NameOrderedCons(h, rest);
      NoRepeatsCons(h, rest);
      assert NoRepeats(rows) && x !in rows ==> h !in rest && NoRepeats(tail) && x !in tail;
      [h] + rest
  }

  /** The invariant of the report loop: `rows` holds, sorted and once each,
      the lines of the selected staff whose badges are no longer in `rest`. */
  ghost predicate ReportSoFar(st: Store, today: int, filter: Option<string>, rows: seq<DailyRow>, rest: set<Badge>)
  {
    && NameOrdered(rows)
    && NoRepeats(rows)
    && (forall i :: 0 <= i < |rows| ==>
          Describes(st, today, rows[i]) && Selects(filter, rows[i].department) && rows[i].badge !in rest)
    && (forall b :: b in st.staff && b !in rest && Selects(filter, st.staff[b].department) ==>
          HasLine(rows, b))
  }

  ghost predicate HasLine(rows: seq<DailyRow>, badge: Badge)
  {
    exists i :: 0 <= i < |rows| && rows[i].badge == badge
  }

  /** Adding the line of a selected badge keeps every line sound, sorted
      and unrepeated. */
  lemma AddLineSound(st: Store, today: int, filter: Option<string>, rows: seq<DailyRow>, rest: set<Badge>, b: Badge)
    requires ReportSoFar(st, today, filter, rows, rest)
    requires b in rest && b in st.staff && Selects(filter, st.staff[b].department)
    ensures var next := InsertLine(rows, LineFor(st, b, today));
            && NameOrdered(next)
            && NoRepeats(next)
            && forall i :: 0 <= i < |next| ==>
                 Describes(st, today, next[i]) && Selects(filter, next[i].department) && next[i].badge !in rest - {b}
  {
    var line := LineFor(st, b, today);
    var next := InsertLine(rows, line);
    forall i | 0 <= i < |next|
      ensures next[i] == line || next[i] in rows
    {
      assert next[i] in next;
    }
  }

  /** Adding the line of a selected badge covers that badge as well. */
  lemma AddLineCovers(st: Store, today: int, filter: Option<string>, rows: seq<DailyRow>, rest: set<Badge>, b: Badge)
    requires ReportSoFar(st, today, filter, rows, rest)
    requires b in rest && b in st.staff && Selects(filter, st.staff[b].department)
    ensures forall c :: c in st.staff && c !in rest - {b} && Selects(filter, st.staff[c].department) ==>
              HasLine(InsertLine(rows, LineFor(st, b, today)), c)
  {
    var line := LineFor(st, b, today);
    var next := InsertLine(rows, line);
    forall c | c in st.staff && c !in rest - {b} && Selects(filter, st.staff[c].department)
      ensures HasLine(next, c)
    {
      var y := line;
      if c != b {
        var i :| 0 <= i < |rows| && rows[i].badge == c;
        y := rows[i];
      }
      assert y in next;
      var k :| 0 <= k < |next| && next[k] == y;
    }
  }

  /** Once every badge is handled, the invariant is the report's contract;
      in particular two lines never share a badge, since a badge determines
      its whole line. */
  lemma ReportFinished(st: Store, today: int, filter: Option<string>, rows: seq<DailyRow>)
    requires ReportSoFar(st, today, filter, rows, {})
    ensures forall i, j :: 0 <= i < j < |rows| ==> rows[i].badge != rows[j].badge
  {
    forall i, j | 0 <= i < j < |rows|
      ensures rows[i].badge != rows[j].badge
    {
      assert Describes(st, today, rows[i]) && Describes(st, today, rows[j]);
    }
  }

  /** How many valid rations each staff member in the selected departments
      has drawn today and how many remain, sorted by name. Staff of the
      administrative department are included; the dashboard hides them. */
  method DailyRationReport(st: Store, today: int, filter: Option<string>) returns (rows: seq<DailyRow>)
    ensures NameOrdered(rows)
    ensures forall i :: 0 <= i < |rows| ==>
              Describes(st, today, rows[i]) && Selects(filter, rows[i].department)
    ensures forall b :: b in st.staff && Selects(filter, st.staff[b].department) ==>
              exists i :: 0 <= i < |rows| && rows[i].badge == b
    ensures forall i, j :: 0 <= i < j < |rows| ==> rows[i].badge != rows[j].badge
  {
    rows := [];
    var rest := st.staff.Keys;
    while rest != {}
      invariant rest <= st.staff.Keys
      invariant ReportSoFar(st, today, filter, rows, rest)
      decreases |rest|
    {
      var b :| b in rest;
      if Selects(filter, st.staff[b].department) {
        AddLineSound(st, today, filter, rows, rest, b);
        AddLineCovers(st, today, filter, rows, rest, b);
        rows := InsertLine(rows, LineFor(st, b, today));
      }
      rest := rest - {b};
    }
    ReportFinished(st, today, filter, rows);
  }

  // ---------------------------------------------------------------------
  // Transaction history

  datatype HistoryRow = HistoryRow(stamp: int, name: string, department: string, badge: Badge, valid: bool)
  {
    function StatusLabel(): string
    {
      if valid then "VALID" else "BATAS (Ditolak)"
    }
  }

  /** Inclusive range of calendar days; a missing bound does not restrict. */
  predicate InRange(day: int, start: Option<int>, end: Option<int>)
  {
    (start.None? || start.value <= day) && (end.None? || day <= end.value)
  }

  /** A transaction survives the join with the staff table and the filters. */
  predicate Listed(st: Store, filter: Option<string>, start: Option<int>, end: Option<int>, t: Transaction)
  {
    && t.badge in st.staff
    && Selects(filter, st.staff[t.badge].department)
    && InRange(Day(t.stamp), start, end)
  }

  /** The joined line of a transaction: its time, badge and validity with
      the current name and department of the badge's staff record. */
  function RowOf(st: Store, t: Transaction): HistoryRow
    requires t.badge in st.staff
  {
    HistoryRow(t.stamp, st.staff[t.badge].name, st.staff[t.badge].department, t.badge, t.valid)
  }

  /** The filtered join, in log order: one line for each occurrence of a
      listed transaction (a line determines its transaction, so equal lines
      come only from equal rows of the log). */
  function Joined(st: Store, txs: seq<Transaction>, filter: Option<string>, start: Option<int>, end: Option<int>)
    : (rows: seq<HistoryRow>)
    ensures |rows| <= |txs|
    ensures forall r :: r in rows <==>
              exists t :: t in txs && Listed(st, filter, start, end, t) && r == RowOf(st, t)
    ensures forall t :: Listed(st, filter, start, end, t) ==> multiset(rows)[RowOf(st, t)] == multiset(txs)[t]
  {
    if txs == [] then []
    else
      var init := txs[..|txs| - 1];
      var last := txs[|txs| - 1];
      var rest := Joined(st, init, filter, start, end);
      assert txs == init + [last];
      assert forall t :: t in txs <==> t in init || t == last;
      if Listed(st, filter, start, end, last) then rest + [RowOf(st, last)] else rest
  }

  ghost predicate NewestFirst(rows: seq<HistoryRow>)
  {
    forall i, j :: 0 <= i < j < |rows| ==> rows[i].stamp >= rows[j].stamp
  }

  /** No row of `rows` is newer than `stamp`. */
  ghost predicate NoneNewer(rows: seq<HistoryRow>, stamp: int)
  {
    forall i :: 0 <= i < |rows| ==> rows[i].stamp <= stamp
  }

  /** A bound on every row of a sequence bounds every row of a permutation
      of it with one more row that also respects the bound. */
  lemma NoneNewerPermutation(rows: seq<HistoryRow>, x: HistoryRow, r: seq<HistoryRow>, stamp: int)
    requires NoneNewer(rows, stamp) && x.stamp <= stamp
    requires multiset(r) == multiset(rows) + multiset{x}
    ensures NoneNewer(r, stamp)
  {
    forall j | 0 <= j < |r|
      ensures r[j].stamp <= stamp
    {
      assert r[j] in multiset(r);
      if r[j] != x {
        assert r[j] in multiset(rows);
        var k :| 0 <= k < |rows| && rows[k] == r[j];
      }
    }
  }

  lemma NewestFirstCons(h: HistoryRow, rows: seq<HistoryRow>)
    requires NewestFirst(rows) && NoneNewer(rows, h.stamp)
    ensures NewestFirst([h] + rows)
  {
  }

  function InsertByStamp(rows: seq<HistoryRow>, x: HistoryRow): (r: seq<HistoryRow>)
    requires NewestFirst(rows)
    ensures NewestFirst(r)
    ensures multiset(r) == multiset(rows) + multiset{x}
  {
    if rows == [] || x.stamp >= rows[0].stamp then
      NewestFirstCons(x, rows);
      [x] + rows
    else
      var h := rows[0];
      var tail := rows[1..];
      var rest := InsertByStamp(tail, x);
      assert rows == [h] + tail;
      NoneNewerPermutation(tail, x, rest, h.stamp);
      NewestFirstCons(h, rest);
      [h] + rest
  }

  function SortNewestFirst(rows: seq<HistoryRow>): (r: seq<HistoryRow>)
    ensures NewestFirst(r)
    ensures multiset(r) == multiset(rows)
  {
    if rows == [] then []
    else
      assert rows == [rows[0]] + rows[1..];
      InsertByStamp(SortNewestFirst(rows[1..]), rows[0])
  }

  /** Every transaction of a registered badge in the selected departments
      and days, newest first. Rows with equal timestamps may come in any
      order. */
  function History(st: Store, filter: Option<string>, start: Option<int>, end: Option<int>)
    : (rows: seq<HistoryRow>)
    ensures NewestFirst(rows)
    ensures multiset(rows) == multiset(Joined(st, st.transactions, filter, start, end))
    ensures forall r :: r in rows <==>
              exists t :: t in st.transactions && Listed(st, filter, start, end, t) && r == RowOf(st, t)
    ensures forall t :: Listed(st, filter, start, end, t) ==>
              multiset(rows)[RowOf(st, t)] == multiset(st.transactions)[t]
  {
    var rows := SortNewestFirst(Joined(st, st.transactions, filter, start, end));
    var joined := Joined(st, st.transactions, filter, start, end);
    assert forall r :: r in rows <==> r in joined by {
      forall r
        ensures r in rows <==> r in joined
      {
        assert r in rows <==> r in multiset(rows);
        assert r in joined <==> r in multiset(joined);
      }
    }
    rows
  }
}
