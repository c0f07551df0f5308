/**
 Marking an installment as paid: every row keyed by the selected
 (sale id, installment number) becomes paid today with no days overdue and no
 fee; every other row is left exactly as it was. A key that matches no row
 leaves the collection unchanged and reports nothing.
 */
module Payment {
  import opened Wrappers
  import opened Calendar
  import opened Records
  import opened Overdue

  predicate Matches(r: Installment, saleId: int, number: int) {
    r.saleId == saleId && r.number == number
  }

  /** The row as it looks once paid on `today`. */
  function PaidRow(r: Installment, today: Date): Installment {
    r.(status := Paid, paidOn := Some(today), daysOverdue := 0, fee := 0)
  }

  function MarkPaid(rows: seq<Installment>, saleId: int, number: int, today: Date): (r: seq<Installment>)
    ensures |r| == |rows|
    ensures forall i :: 0 <= i < |rows| && Matches(rows[i], saleId, number) ==>
      && SameObligation(rows[i], r[i])
      && r[i].status == Paid && r[i].paidOn == Some(today)
      && r[i].daysOverdue == 0 && r[i].fee == 0
    ensures forall i :: 0 <= i < |rows| && !Matches(rows[i], saleId, number) ==> r[i] == rows[i]
  {
    if rows == [] then []
    else
      var head := if Matches(rows[0], saleId, number) then PaidRow(rows[0], today) else rows[0];
      [head] + MarkPaid(rows[1..], saleId, number, today)
  }

  /** With no matching row the operation is a silent no-op. */
  lemma MarkPaidNoMatch(rows: seq<Installment>, saleId: int, number: int, today: Date)
    requires forall i :: 0 <= i < |rows| ==> !Matches(rows[i], saleId, number)
    ensures MarkPaid(rows, saleId, number, today) == rows
  {
    var r := MarkPaid(rows, saleId, number, today);
    assert forall i :: 0 <= i < |rows| ==> r[i] == rows[i];
  }

  /** Marking the same key twice on the same day is marking it once. */
  lemma MarkPaidIdempotent(rows: seq<Installment>, saleId: int, number: int, today: Date)
    ensures var once := MarkPaid(rows, saleId, number, today);
      MarkPaid(once, saleId, number, today) == once
  {
    var once := MarkPaid(rows, saleId, number, today);
    var twice := MarkPaid(once, saleId, number, today);
    forall i | 0 <= i < |rows|
      ensures twice[i] == once[i]
    {
      if Matches(rows[i], saleId, number) {
        assert Matches(once[i], saleId, number);
      }
    }
  }

  /** Marking keeps the record invariant and the due dates. */
  lemma MarkPaidWellFormed(rows: seq<Installment>, saleId: int, number: int, today: Date)
    requires AllWellFormed(rows) && AllValidDates(rows)
    ensures AllWellFormed(MarkPaid(rows, saleId, number, today))
    ensures AllValidDates(MarkPaid(rows, saleId, number, today))
  {
    var r := MarkPaid(rows, saleId, number, today);
    forall i | 0 <= i < |rows|
      ensures WellFormed(r[i]) && Valid(r[i].dueDate)
    {
      if Matches(rows[i], saleId, number) {
      } else {
        assert r[i] == rows[i];
      }
    }
  }

  /** Paid rows stay paid: a later recalculation on any day keeps a marked row
      paid on the marking day with no days overdue and no fee. */
  lemma MarkedRowSurvivesRecalc(rows: seq<Installment>, saleId: int, number: int,
                                paidDay: Date, today: Date)
    requires AllValidDates(rows) && Valid(today)
    ensures var marked := MarkPaid(rows, saleId, number, paidDay);
      AllValidDates(marked)
      && var r := Recalc(marked, today);
      forall i :: 0 <= i < |rows| && Matches(rows[i], saleId, number) ==>
        && SameObligation(rows[i], r[i])
        && r[i].status == Paid && r[i].paidOn == Some(paidDay)
        && r[i].daysOverdue == 0 && r[i].fee == 0
  {
    var marked := MarkPaid(rows, saleId, number, paidDay);
    assert forall i :: 0 <= i < |rows| ==> marked[i].dueDate == rows[i].dueDate;
  }

}
