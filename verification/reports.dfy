/**
 The read-only views over the installment collection: the status filter, the
 "overdue only" toggle, and the summary totals (sold, received, pending, fees).
 */
module Reports {
  import opened Wrappers
  import opened Calendar
  import opened Records
  import opened Generation
  import opened Overdue
  import opened Payment

  // ---------------------------------------------------------------------------
  // Filters
  // ---------------------------------------------------------------------------

  /** `a` is `b` with some rows dropped and the rest kept in order. */
  predicate IsSubsequence<T(==)>(a: seq<T>, b: seq<T>)
    decreases |b|
  {
    a == []
    || (b != [] && ((a[0] == b[0] && IsSubsequence(a[1..], b[1..])) || IsSubsequence(a, b[1..])))
  }

  /** The rows whose status is exactly `s`, in their original order: every
      such row is kept as often as it occurs, every other row is dropped. */
  function WithStatus(rows: seq<Installment>, s: Status): (r: seq<Installment>)
    ensures IsSubsequence(r, rows)
    ensures forall x :: x in r <==> x in rows && x.status == s
    ensures forall x :: multiset(r)[x] == if x.status == s then multiset(rows)[x] else 0
  {
    if rows == [] then []
    else
      assert rows == [rows[0]] + rows[1..];
      if rows[0].status == s then [rows[0]] + WithStatus(rows[1..], s)
      else WithStatus(rows[1..], s)
  }

  /** The status selector: `None` is "Todos" (all statuses) and keeps the table
      as it is; otherwise exactly the rows with the selected status remain. */
  function FilterByStatus(rows: seq<Installment>, selected: Option<Status>): (r: seq<Installment>)
    ensures selected.None? ==> r == rows
    ensures IsSubsequence(r, rows)
    ensures forall x :: multiset(r)[x] ==
                        (if selected.None? || x.status == selected.value then multiset(rows)[x] else 0)
  {
    match selected
    case None => SubsequenceReflexive(rows); rows
    case Some(s) => WithStatus(rows, s)
  }

  /** The "show only overdue" checkbox: off keeps the table, on keeps exactly
      the overdue rows. */
  function OverdueOnly(rows: seq<Installment>, on: bool): (r: seq<Installment>)
    ensures !on ==> r == rows
    ensures IsSubsequence(r, rows)
    ensures forall x :: multiset(r)[x] ==
                        (if !on || x.status == Overdue then multiset(rows)[x] else 0)
  {
    if on then WithStatus(rows, Overdue) else SubsequenceReflexive(rows); rows
  }

  /** The filters applied in the table view's order: status, then the toggle.
      A row is shown exactly when it passes both, as often as it occurs. */
  function ApplyFilters(rows: seq<Installment>, selected: Option<Status>, overdueOnly: bool): (r: seq<Installment>)
    ensures IsSubsequence(r, rows)
    ensures forall x :: (x in r <==>
                          x in rows && (selected.None? || x.status == selected.value) && (!overdueOnly || x.status == Overdue))
    ensures forall x :: multiset(r)[x] ==
                        (if (selected.None? || x.status == selected.value) && (!overdueOnly || x.status == Overdue)
                         then multiset(rows)[x] else 0)
  {
    var byStatus := FilterByStatus(rows, selected);
    var r := OverdueOnly(byStatus, overdueOnly);
    SubsequenceTransitive(r, byStatus, rows);
    r
  }

  lemma {:induction false} SubsequenceReflexive<T>(a: seq<T>)
    ensures IsSubsequence(a, a)
    decreases |a|
  {
    if a != [] {
      SubsequenceReflexive(a[1..]);
    }
  }

  lemma {:induction false} SubsequenceTransitive<T>(a: seq<T>, b: seq<T>, c: seq<T>)
    requires IsSubsequence(a, b) && IsSubsequence(b, c)
    ensures IsSubsequence(a, c)
    decreases |c|
  {
    if a == [] {
    } else if IsSubsequence(b, c[1..]) {
      SubsequenceTransitive(a, b, c[1..]);
    } else if a[0] == b[0] && IsSubsequence(a[1..], b[1..]) {
      SubsequenceTransitive(a[1..], b[1..], c[1..]);
    } else {
      SubsequenceTransitive(a, b[1..], c[1..]);
    }
  }

  /** Filtering by a status a second time changes nothing. */
  lemma {:induction false} WithStatusIdempotent(rows: seq<Installment>, s: Status)
    ensures WithStatus(WithStatus(rows, s), s) == WithStatus(rows, s)
  {
    if rows != [] {
      WithStatusIdempotent(rows[1..], s);
    }
  }

  /** Filtering by one status and then by a different one leaves nothing. */
  lemma {:induction false} WithStatusDisjoint(rows: seq<Installment>, s: Status, t: Status)
    requires s != t
    ensures WithStatus(WithStatus(rows, s), t) == []
  {
    if rows != [] {
      WithStatusDisjoint(rows[1..], s, t);
    }
  }

  /** The "overdue only" toggle selects the same rows as the status filter set
      to overdue, alone or together; combined with any other status it selects
      nothing. */
  lemma OverdueToggleMatchesStatusFilter(rows: seq<Installment>, s: Status)
    ensures ApplyFilters(rows, None, true) == ApplyFilters(rows, Some(Overdue), false)
    ensures ApplyFilters(rows, Some(Overdue), true) == ApplyFilters(rows, Some(Overdue), false)
    ensures s != Overdue ==> ApplyFilters(rows, Some(s), true) == []
  {
    WithStatusIdempotent(rows, Overdue);
    if s != Overdue {
      WithStatusDisjoint(rows, s, Overdue);
    }
  }

  // ---------------------------------------------------------------------------
  // Totals
  // ---------------------------------------------------------------------------

  /** Sum of the installment amounts. */
  function SumAmounts(rows: seq<Installment>): int {
    if rows == [] then 0 else rows[0].amount + SumAmounts(rows[1..])
  }

  function SumDaysOverdue(rows: seq<Installment>): int {
    if rows == [] then 0 else rows[0].daysOverdue + SumDaysOverdue(rows[1..])
  }

  /** Total accrued fees: on well-formed rows, the daily fee times the total
      days overdue. */
  function SumFees(rows: seq<Installment>): (total: int)
    ensures AllWellFormed(rows) ==> total == DailyFee * SumDaysOverdue(rows)
  {
    if rows == [] then 0 else rows[0].fee + SumFees(rows[1..])
  }

  /** Total received: the amounts of the paid rows, which is the sum over
      what the "Pago" status filter shows. */
  function TotalReceived(rows: seq<Installment>): (total: int)
    ensures total == SumAmounts(WithStatus(rows, Paid))
  {
    if rows == [] then 0
    else
      assert rows[0].status == Paid ==> WithStatus(rows, Paid)[1..] == WithStatus(rows[1..], Paid);
      (if rows[0].status == Paid then rows[0].amount else 0) + TotalReceived(rows[1..])
  }

  /** Total pending: the amounts of every row that is not paid, which is all
      amounts less the total received. */
  function TotalPending(rows: seq<Installment>): (total: int)
    ensures total == SumAmounts(rows) - TotalReceived(rows)
  {
    if rows == [] then 0
    else (if rows[0].status != Paid then rows[0].amount else 0) + TotalPending(rows[1..])
  }

  /** Total sold (estimated): each sale's down payment plus its installment
      amount times its installment count; for valid sales with non-negative
      counts, the down payments plus everything the generated schedules sum to. */
  function TotalSold(sales: seq<Sale>): (total: int)
    ensures (forall k :: 0 <= k < |sales| ==> Valid(sales[k].saleDate) && sales[k].installmentCount >= 0) ==>
      total == SumDownPayments(sales) + SumAmounts(AllSchedules(sales))
  {
    if sales == [] then 0
    else
      var rest := TotalSold(sales[1..]);
      if forall k :: 0 <= k < |sales| ==> Valid(sales[k].saleDate) && sales[k].installmentCount >= 0 then
        GeneratedTotal(sales[0]);
        SumAmountsAppend(Generate(sales[0]), AllSchedules(sales[1..]));
        sales[0].downPayment + sales[0].installmentAmount * sales[0].installmentCount + rest
      else
        sales[0].downPayment + sales[0].installmentAmount * sales[0].installmentCount + rest
  }

  function SumDownPayments(sales: seq<Sale>): int {
    if sales == [] then 0 else sales[0].downPayment + SumDownPayments(sales[1..])
  }

  /** Received and pending split the total amount: every row is counted in
      exactly one of them. */
  lemma {:induction false} ReceivedPlusPending(rows: seq<Installment>)
    ensures TotalReceived(rows) + TotalPending(rows) == SumAmounts(rows)
  {
    if rows != [] {
      ReceivedPlusPending(rows[1..]);
    }
  }

  /** Total received is the sum over the rows the "Pago" filter shows. */
  lemma {:induction false} ReceivedIsPaidFilterSum(rows: seq<Installment>)
    ensures TotalReceived(rows) == SumAmounts(WithStatus(rows, Paid))
  {
    if rows != [] {
      ReceivedIsPaidFilterSum(rows[1..]);
      if rows[0].status == Paid {
        assert WithStatus(rows, Paid)[1..] == WithStatus(rows[1..], Paid);
      }
    }
  }

  /** Sums of a concatenation add up. */
  lemma {:induction false} SumAmountsAppend(a: seq<Installment>, b: seq<Installment>)
    ensures SumAmounts(a + b) == SumAmounts(a) + SumAmounts(b)
    decreases |a|
  {
    if a != [] {
      assert (a + b)[0] == a[0];
      assert (a + b)[1..] == a[1..] + b;
      SumAmountsAppend(a[1..], b);
    } else {
      assert a + b == b;
    }
  }

  lemma {:induction false} ScheduleFromTotal(s: Sale, i: int)
    requires Valid(s.saleDate) && i >= 1
    ensures SumAmounts(ScheduleFrom(s, i)) ==
      s.installmentAmount * (if s.installmentCount >= i then s.installmentCount - i + 1 else 0)
    decreases s.installmentCount - i
  {
    if i <= s.installmentCount {
      var r := ScheduleFrom(s, i);
      assert r[1..] == ScheduleFrom(s, i + 1);
      ScheduleFromTotal(s, i + 1);
    }
  }

  /** A sale's schedule adds up to its installment amount times its count. */
  lemma GeneratedTotal(s: Sale)
    requires Valid(s.saleDate)
    ensures SumAmounts(Generate(s)) ==
      s.installmentAmount * (if s.installmentCount > 0 then s.installmentCount else 0)
  {
    ScheduleFromTotal(s, 1);
  }

  /** All sales' schedules, one after the other. */
  function AllSchedules(sales: seq<Sale>): seq<Installment>
    requires forall k :: 0 <= k < |sales| ==> Valid(sales[k].saleDate)
  {
    if sales == [] then [] else Generate(sales[0]) + AllSchedules(sales[1..])
  }

  /** The total-sold estimate is the down payments plus everything the
      generated schedules will ever collect (for non-negative counts). */
  lemma {:induction false} TotalSoldMatchesSchedules(sales: seq<Sale>)
    requires forall k :: 0 <= k < |sales| ==> Valid(sales[k].saleDate)
    requires forall k :: 0 <= k < |sales| ==> sales[k].installmentCount >= 0
    ensures TotalSold(sales) == SumDownPayments(sales) + SumAmounts(AllSchedules(sales))
  {
    if sales != [] {
      TotalSoldMatchesSchedules(sales[1..]);
      GeneratedTotal(sales[0]);
      SumAmountsAppend(Generate(sales[0]), AllSchedules(sales[1..]));
    }
  }

  /** Recalculation moves no money between received and pending, and charges
      exactly the daily fee for every day overdue. */
  lemma RecalcKeepsTotals(rows: seq<Installment>, today: Date)
    requires AllValidDates(rows) && Valid(today)
    ensures TotalReceived(Recalc(rows, today)) == TotalReceived(rows)
    ensures TotalPending(Recalc(rows, today)) == TotalPending(rows)
    ensures SumFees(Recalc(rows, today)) == DailyFee * SumDaysOverdue(Recalc(rows, today))
  {
    RecalcKeepsReceived(rows, today);
    RecalcKeepsAmounts(rows, today);
    RecalcFeesPerDay(rows, today);
  }

  lemma {:induction false} RecalcKeepsReceived(rows: seq<Installment>, today: Date)
    requires AllValidDates(rows) && Valid(today)
    ensures TotalReceived(Recalc(rows, today)) == TotalReceived(rows)
  {
    if rows != [] {
      var r := Recalc(rows, today);
      assert r[1..] == Recalc(rows[1..], today);
      RecalcKeepsReceived(rows[1..], today);
    }
  }

  lemma {:induction false} RecalcKeepsAmounts(rows: seq<Installment>, today: Date)
    requires AllValidDates(rows) && Valid(today)
    ensures SumAmounts(Recalc(rows, today)) == SumAmounts(rows)
  {
    if rows != [] {
      var r := Recalc(rows, today);
      assert r[1..] == Recalc(rows[1..], today);
      RecalcKeepsAmounts(rows[1..], today);
    }
  }

  lemma {:induction false} RecalcFeesPerDay(rows: seq<Installment>, today: Date)
    requires AllValidDates(rows) && Valid(today)
    ensures SumFees(Recalc(rows, today)) == DailyFee * SumDaysOverdue(Recalc(rows, today))
  {
    if rows != [] {
      var r := Recalc(rows, today);
      assert r[1..] == Recalc(rows[1..], today);
      RecalcFeesPerDay(rows[1..], today);
    }
  }

  /** Marking paid moves money only between pending and received: their sum is
      unchanged. */
  lemma {:induction false} MarkPaidKeepsTotal(rows: seq<Installment>, saleId: int, number: int, today: Date)
    ensures var r := MarkPaid(rows, saleId, number, today);
      TotalReceived(r) + TotalPending(r) == TotalReceived(rows) + TotalPending(rows)
  {
    if rows != [] {
      var r := MarkPaid(rows, saleId, number, today);
      assert r[1..] == MarkPaid(rows[1..], saleId, number, today);
      MarkPaidKeepsTotal(rows[1..], saleId, number, today);
    }
  }

  /** With non-negative amounts, marking a row paid never lowers the total
      received and never raises the total pending. */
  lemma {:induction false} MarkPaidMovesToReceived(rows: seq<Installment>, saleId: int, number: int, today: Date)
    requires forall i :: 0 <= i < |rows| ==> rows[i].amount >= 0
    ensures TotalReceived(MarkPaid(rows, saleId, number, today)) >= TotalReceived(rows)
    ensures TotalPending(MarkPaid(rows, saleId, number, today)) <= TotalPending(rows)
  {
    if rows != [] {
      var r := MarkPaid(rows, saleId, number, today);
      assert r[1..] == MarkPaid(rows[1..], saleId, number, today);
      MarkPaidMovesToReceived(rows[1..], saleId, number, today);
    }
  }

}
