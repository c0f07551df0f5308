/**
 The overdue/fee recalculation: every row's days overdue, late fee and status
 are recomputed as of a reference date `today`. Rows that are paid, or that
 carry a payment date, only have their day count and fee reset to zero.
 */
module Overdue {
  import opened Wrappers
  import opened Calendar
  import opened Records

  /** A settled row is left alone apart from zeroing its derived fields. On a
      well-formed row, settled means exactly "Pago". */
  predicate IsSettled(r: Installment)
    ensures WellFormed(r) ==> (IsSettled(r) <==> r.status == Paid)
  {
    r.status == Paid || r.paidOn.Some?
  }

  /** Whole days from `due` to `today`, floored at zero. */
  function DaysOverdue(due: Date, today: Date): (n: int)
    requires Valid(due) && Valid(today)
    ensures n >= 0
    ensures n == 0 <==> !Before(due, today)
    ensures n > 0 ==> DayNumber(due) + n == DayNumber(today)
  {
    DayNumberOrder(due, today);
    var delta := DayNumber(today) - DayNumber(due);
    if delta > 0 then delta else 0
  }

  /** One row brought up to date as of `today`. */
  function RecalcRow(r: Installment, today: Date): (r': Installment)
    requires Valid(r.dueDate) && Valid(today)
    ensures SameObligation(r, r') && r'.paidOn == r.paidOn
    ensures IsSettled(r) ==> r'.status == r.status && r'.daysOverdue == 0 && r'.fee == 0
    ensures !IsSettled(r) ==>
      && r'.daysOverdue == DaysOverdue(r.dueDate, today)
      && r'.fee == r'.daysOverdue * DailyFee
      && (r'.status == Overdue <==> Before(r.dueDate, today))
      && (r'.status == Pending <==> !Before(r.dueDate, today))
  {
    if IsSettled(r) then
      r.(daysOverdue := 0, fee := 0)
    else
      var days := DaysOverdue(r.dueDate, today);
      r.(daysOverdue := days,
         fee := days * DailyFee,
         status := if days > 0 then Overdue else Pending)
  }

  /** The whole collection brought up to date; order and length are kept. */
  function Recalc(rows: seq<Installment>, today: Date): (r: seq<Installment>)
    requires AllValidDates(rows) && Valid(today)
    ensures |r| == |rows|
    ensures forall i :: 0 <= i < |r| ==> r[i] == RecalcRow(rows[i], today)
  {
    if rows == [] then []
    else [RecalcRow(rows[0], today)] + Recalc(rows[1..], today)
  }

  /** A row whose derived fields already agree with `today`. */
  predicate UpToDate(r: Installment, today: Date)
    requires Valid(r.dueDate) && Valid(today)
  {
    if IsSettled(r) then r.daysOverdue == 0 && r.fee == 0
    else
      && r.daysOverdue == DaysOverdue(r.dueDate, today)
      && r.fee == r.daysOverdue * DailyFee
      && r.status == (if r.daysOverdue > 0 then Overdue else Pending)
  }

  /** Recalculation is exactly "make the row up to date": it leaves a row alone
      if and only if the row is already up to date. */
  lemma RecalcRowFixpoint(r: Installment, today: Date)
    requires Valid(r.dueDate) && Valid(today)
    ensures UpToDate(RecalcRow(r, today), today)
    ensures RecalcRow(r, today) == r <==> UpToDate(r, today)
  {
  }

  /** The collection is unchanged by recalculation if and only if every row is
      already up to date, and after recalculation every row is. */
  lemma RecalcFixpoint(rows: seq<Installment>, today: Date)
    requires AllValidDates(rows) && Valid(today)
    ensures forall i :: 0 <= i < |rows| ==> UpToDate(Recalc(rows, today)[i], today)
    ensures Recalc(rows, today) == rows <==>
      forall i :: 0 <= i < |rows| ==> UpToDate(rows[i], today)
  {
    var r := Recalc(rows, today);
    forall i | 0 <= i < |rows|
      ensures UpToDate(r[i], today)
      ensures r[i] == rows[i] <==> UpToDate(rows[i], today)
    {
      RecalcRowFixpoint(rows[i], today);
    }
    if forall i :: 0 <= i < |rows| ==> UpToDate(rows[i], today) {
      assert forall i :: 0 <= i < |rows| ==> r[i] == rows[i];
    }
  }

  /** Recalculating twice with the same reference date is recalculating once. */
  lemma RecalcIdempotent(rows: seq<Installment>, today: Date)
    requires AllValidDates(rows) && Valid(today)
    ensures AllValidDates(Recalc(rows, today))
    ensures Recalc(Recalc(rows, today), today) == Recalc(rows, today)
  {
    var r := Recalc(rows, today);
    RecalcFixpoint(rows, today);
    RecalcFixpoint(r, today);
  }

  /** Settled rows keep their status, payment date, amount and due date; every
      row keeps its obligation; and a row is paid afterwards exactly when it was
      paid before. */
  lemma RecalcKeepsSettled(rows: seq<Installment>, today: Date)
    requires AllValidDates(rows) && Valid(today)
    ensures var r := Recalc(rows, today);
      forall i :: 0 <= i < |rows| ==>
        && SameObligation(rows[i], r[i])
        && r[i].paidOn == rows[i].paidOn
        && (r[i].status == Paid <==> rows[i].status == Paid)
        && (IsSettled(rows[i]) ==> r[i].status == rows[i].status)
  {
  }

  /** Recalculation keeps the record invariant. */
  lemma RecalcWellFormed(rows: seq<Installment>, today: Date)
    requires AllValidDates(rows) && Valid(today) && AllWellFormed(rows)
    ensures AllWellFormed(Recalc(rows, today)) && AllValidDates(Recalc(rows, today))
  {
    var r := Recalc(rows, today);
    forall i | 0 <= i < |rows|
      ensures WellFormed(r[i])
    {
      assert r[i] == RecalcRow(rows[i], today);
    }
  }

  /** The worked example: an unpaid installment due ten days before `today`
      is ten days overdue, owes 39.00 in fees and is marked overdue. */
  lemma TenDaysOverdueExample()
    ensures var r := Installment(7, "Ana", "A54", "Samsung", 1, 45000,
                                 Date(2024, 2, 29), Pending, 0, 0, None);
      var r' := RecalcRow(r, Date(2024, 3, 10));
      r'.daysOverdue == 10 && r'.fee == 3900 && r'.status == Overdue
  {
    assert DaysBeforeMonth(2024, 3) == 60;
  }

}
