/** The rows of an event's CSV export (events/views.py, `export`) and the
    order in which they are written. Formatting of the CSV file, local-time
    conversion and the registration-information columns are not modelled. */
module EventExport {
  import opened Wrappers
  import opened Events

  /** One export row. `dateCancelled` is only filled for cancelled rows. */
  datatype ExportRow = ExportRow(
    name: string,
    date: int,
    email: string,
    present: bool,
    paid: bool,
    status: Status,
    dateCancelled: Option<int>)

  /** A member's registration shows the member's full name and e-mail
      address; a guest registration shows the guest name and no e-mail. */
  function RowOf(r: Registration, status: Status): ExportRow {
    ExportRow(
      if r.member.Some? then r.member.value.fullName else r.name,
      r.date,
      if r.member.Some? then r.member.value.email else "",
      r.present,
      r.paid,
      status,
      r.dateCancelled)
  }

  /** The rows in database order, before sorting: one per registration,
      with the status computed by the export loop. */
  function ExportRows(regs: seq<Registration>, maxParticipants: Option<nat>): (rows: seq<ExportRow>)
    ensures |rows| == |regs|
    ensures forall i :: 0 <= i < |regs| ==>
              && rows[i].date == regs[i].date
              && rows[i].dateCancelled == regs[i].dateCancelled
              && rows[i].present == regs[i].present
              && rows[i].paid == regs[i].paid
              && rows[i].status == ExportStatuses(regs, maxParticipants)[i]
              && (rows[i].status == CancelledStatus <==> regs[i].dateCancelled.Some?)
              && (regs[i].member.Some? ==>
                    rows[i].name == regs[i].member.value.fullName && rows[i].email == regs[i].member.value.email)
              && (regs[i].member.None? ==> rows[i].name == regs[i].name && rows[i].email == "")
  {
    var st := ExportStatuses(regs, maxParticipants);
    ExportCancelledIff(regs, maxParticipants);
    seq(|regs|, i requires 0 <= i < |regs| => RowOf(regs[i], st[i]))
  }

  /** The status column of a list of rows. */
  function StatusColumn(rows: seq<ExportRow>): (st: seq<Status>)
    ensures |st| == |rows|
    ensures forall i :: 0 <= i < |rows| ==> st[i] == rows[i].status
  {
    if rows == [] then [] else [rows[0].status] + StatusColumn(rows[1..])
  }

  /** For a positive participant limit, the registrations whose written row
      says `waiting` are exactly the admin details page's waiting list, in
      the same order. */
  lemma ExportRowsWaitingAreDetails(regs: seq<Registration>, n: nat)
    requires n > 0
    ensures WaitingOf(regs, StatusColumn(ExportRows(regs, Some(n)))) == AdminDetails(regs, Some(n)).waiting
  {
    assert StatusColumn(ExportRows(regs, Some(n))) == ExportStatuses(regs, Some(n));
    ExportWaitingMatchesDetails(regs, n);
  }

  // -----------------------------------------------------------------------
  // Sorting by the `order` key

  /** `timedelta(days=10000)` in seconds. */
  const OrderOffset: int := 10000 * 86400

  /** The sort key of a row: cancelled rows are shifted 10000 days later,
      registered rows 10000 days earlier and waiting rows keep their date. */
  function OrderKey(row: ExportRow): (key: int)
    ensures row.status == CancelledStatus <==> key == row.date + OrderOffset
    ensures row.status == Registered <==> key == row.date - OrderOffset
    ensures row.status == Waiting <==> key == row.date
  {
    match row.status
    case CancelledStatus => row.date + OrderOffset
    case Registered => row.date - OrderOffset
    case Waiting => row.date
  }

  predicate SortedByKey(rows: seq<ExportRow>) {
    forall i, j :: 0 <= i < j < |rows| ==> OrderKey(rows[i]) <= OrderKey(rows[j])
  }

  /** Inserts `x` in front of the first row whose key is not smaller. */
  function Insert(x: ExportRow, rows: seq<ExportRow>): (r: seq<ExportRow>)
    requires SortedByKey(rows)
    ensures SortedByKey(r)
    ensures multiset(r) == multiset(rows) + multiset{x}
  {
    if rows == [] then [x]
    else if OrderKey(x) <= OrderKey(rows[0]) then [x] + rows
    else
      assert rows == [rows[0]] + rows[1..];
      var tail := Insert(x, rows[1..]);
      InsertTailBound(x, rows, tail);
      [rows[0]] + tail
  }

  /** Every row of the insertion into the rest is at least the head's key. */
  lemma InsertTailBound(x: ExportRow, rows: seq<ExportRow>, tail: seq<ExportRow>)
    requires rows != [] && SortedByKey(rows) && OrderKey(rows[0]) < OrderKey(x)
    requires multiset(tail) == multiset(rows[1..]) + multiset{x}
    ensures forall k :: 0 <= k < |tail| ==> OrderKey(rows[0]) <= OrderKey(tail[k])
  {
    forall k | 0 <= k < |tail|
      ensures OrderKey(rows[0]) <= OrderKey(tail[k])
    {
      assert tail[k] in multiset(tail);
      if tail[k] != x {
        assert tail[k] in multiset(rows[1..]);
        var m :| 0 <= m < |rows[1..]| && rows[1..][m] == tail[k];
        assert rows[m + 1] == tail[k];
      }
    }
  }

  /** `sorted(rows, key=order)`: the rows permuted into ascending key order. */
  function SortRows(rows: seq<ExportRow>): (r: seq<ExportRow>)
    ensures SortedByKey(r)
    ensures multiset(r) == multiset(rows)
  {
    if rows == [] then []
    else
      assert rows == [rows[0]] + rows[1..];
      Insert(rows[0], SortRows(rows[1..]))
  }

  /** The rows with sort key `k`, in their order. */
  function WithKey(rows: seq<ExportRow>, k: int): (r: seq<ExportRow>)
    ensures forall x :: x in r ==> x in rows && OrderKey(x) == k
  {
    if rows == [] then []
    else if OrderKey(rows[0]) == k then [rows[0]] + WithKey(rows[1..], k)
    else WithKey(rows[1..], k)
  }

  lemma WithKeyCons(x: ExportRow, rows: seq<ExportRow>, k: int)
    ensures WithKey([x] + rows, k) == (if OrderKey(x) == k then [x] else []) + WithKey(rows, k)
  {
    assert ([x] + rows)[1..] == rows;
  }

  /** Inserting `x` puts it in front of every row that has its key. */
  lemma {:induction false} InsertWithKey(x: ExportRow, rows: seq<ExportRow>, k: int)
    requires SortedByKey(rows)
    ensures WithKey(Insert(x, rows), k) == (if OrderKey(x) == k then [x] else []) + WithKey(rows, k)
  {
    if rows == [] {
      assert Insert(x, rows) == [x] + rows;
      WithKeyCons(x, rows, k);
    } else if OrderKey(x) <= OrderKey(rows[0]) {
      assert Insert(x, rows) == [x] + rows;
      WithKeyCons(x, rows, k);
    } else {
      SortedTail(rows);
      var tail := Insert(x, rows[1..]);
      assert Insert(x, rows) == [rows[0]] + tail;
      InsertWithKey(x, rows[1..], k);
      WithKeyCons(rows[0], tail, k);
      assert rows == [rows[0]] + rows[1..];
      WithKeyCons(rows[0], rows[1..], k);
    }
  }

  lemma SortedTail(rows: seq<ExportRow>)
    requires rows != [] && SortedByKey(rows)
    ensures SortedByKey(rows[1..])
  {
    forall i, j | 0 <= i < j < |rows| - 1
      ensures OrderKey(rows[1..][i]) <= OrderKey(rows[1..][j])
    {
      assert rows[1..][i] == rows[i + 1] && rows[1..][j] == rows[j + 1];
    }
  }

  /** Python's `sorted` is stable: rows with the same key keep the order
      they had before sorting. */
  lemma {:induction false} SortRowsStable(rows: seq<ExportRow>, k: int)
    ensures WithKey(SortRows(rows), k) == WithKey(rows, k)
  {
    if rows != [] {
      SortRowsStable(rows[1..], k);
      InsertWithKey(rows[0], SortRows(rows[1..]), k);
      WithKeyCons(rows[0], rows[1..], k);
      assert rows == [rows[0]] + rows[1..];
    }
  }

  /** The exported table: every registration's row, in written order. */
  function ExportTable(regs: seq<Registration>, maxParticipants: Option<nat>): (rows: seq<ExportRow>)
    ensures multiset(rows) == multiset(ExportRows(regs, maxParticipants))
    ensures |rows| == |regs|
    ensures SortedByKey(rows)
  {
    var rows := SortRows(ExportRows(regs, maxParticipants));
    assert |rows| == |multiset(rows)|;
    rows
  }

  /** Rows of equal key are written in database order. */
  lemma ExportTableStable(regs: seq<Registration>, maxParticipants: Option<nat>, k: int)
    ensures WithKey(ExportTable(regs, maxParticipants), k) == WithKey(ExportRows(regs, maxParticipants), k)
  {
    SortRowsStable(ExportRows(regs, maxParticipants), k);
  }

  /** Rank of a status in the written file. */
  function Rank(s: Status): int {
    match s
    case Registered => 0
    case Waiting => 1
    case CancelledStatus => 2
  }

  predicate WithinSpan(rows: seq<ExportRow>) {
    forall i, j :: 0 <= i < |rows| && 0 <= j < |rows| ==> rows[i].date - rows[j].date < OrderOffset
  }

  /** When all dates lie less than 10000 days apart, the `order` key sorts
      all `registered` rows before all `waiting` rows before all `cancelled`
      rows, and rows of the same status by date. */
  lemma SortedByKeyGroupsStatuses(rows: seq<ExportRow>)
    requires SortedByKey(rows) && WithinSpan(rows)
    ensures forall i, j :: 0 <= i < j < |rows| ==>
              || Rank(rows[i].status) < Rank(rows[j].status)
              || (rows[i].status == rows[j].status && rows[i].date <= rows[j].date)
  {
    forall i, j | 0 <= i < j < |rows|
      ensures || Rank(rows[i].status) < Rank(rows[j].status)
              || (rows[i].status == rows[j].status && rows[i].date <= rows[j].date)
    {
      assert OrderKey(rows[i]) <= OrderKey(rows[j]);
      assert rows[j].date - rows[i].date < OrderOffset;
    }
  }

  lemma SpanOfPermutation(a: seq<ExportRow>, b: seq<ExportRow>)
    requires multiset(a) == multiset(b) && WithinSpan(a)
    ensures WithinSpan(b)
  {
    forall i, j | 0 <= i < |b| && 0 <= j < |b|
      ensures b[i].date - b[j].date < OrderOffset
    {
      assert b[i] in multiset(a) && b[j] in multiset(a);
      var i' :| 0 <= i' < |a| && a[i'] == b[i];
      var j' :| 0 <= j' < |a| && a[j'] == b[j];
    }
  }

  /** The written export lists registered, then waiting, then cancelled
      rows, each group by date, provided the registration dates lie within
      a 10000-day span. */
  lemma ExportTableOrder(regs: seq<Registration>, maxParticipants: Option<nat>)
    requires forall i, j :: 0 <= i < |regs| && 0 <= j < |regs| ==> regs[i].date - regs[j].date < OrderOffset
    ensures
      var rows := ExportTable(regs, maxParticipants);
      forall i, j :: 0 <= i < j < |rows| ==>
        || Rank(rows[i].status) < Rank(rows[j].status)
        || (rows[i].status == rows[j].status && rows[i].date <= rows[j].date)
  {
    var unsorted := ExportRows(regs, maxParticipants);
    var rows := ExportTable(regs, maxParticipants);
    SpanOfPermutation(unsorted, rows);
    SortedByKeyGroupsStatuses(rows);
  }
}
