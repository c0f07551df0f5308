/**
 The mutating actions as whole-collection transformations: recording a sale
 appends its generated schedule and recalculates everything as of `today`.
 */
module Session {
  import opened Wrappers
  import opened Calendar
  import opened Records
  import opened Generation
  import opened Overdue

  /** Appends the new sale's installments and brings the whole collection up
      to date. Existing rows keep their obligations and payment dates and are
      recalculated as of `today`; the new rows are the sale's schedule,
      recalculated too: unpaid, overdue exactly when already due. */
  function RecordSale(rows: seq<Installment>, s: Sale, today: Date): (r: seq<Installment>)
    requires AllValidDates(rows) && Valid(s.saleDate) && Valid(today)
    ensures |r| == |rows| + (if s.installmentCount > 0 then s.installmentCount else 0)
    ensures forall i :: 0 <= i < |rows| ==>
      SameObligation(rows[i], r[i]) && r[i].paidOn == rows[i].paidOn
    ensures forall k :: |rows| <= k < |r| ==>
      && InheritsSale(s, r[k])
      && r[k].number == k - |rows| + 1
      && r[k].dueDate == AddMonths(s.saleDate, k - |rows| + 1)
      && r[k].paidOn == None
      && (r[k].status == Overdue <==> Before(r[k].dueDate, today))
      && (r[k].status == Pending <==> !Before(r[k].dueDate, today))
    ensures forall i :: 0 <= i < |rows| ==> r[i] == RecalcRow(rows[i], today)
    ensures forall k :: |rows| <= k < |r| ==> r[k] == RecalcRow(Generate(s)[k - |rows|], today)
  {
    var schedule := Generate(s);
    var all := rows + schedule;
    assert forall k :: |rows| <= k < |all| ==> all[k] == schedule[k - |rows|];
    Recalc(all, today)
  }

  /** Recording a sale keeps the record invariant. */
  lemma RecordSaleWellFormed(rows: seq<Installment>, s: Sale, today: Date)
    requires AllValidDates(rows) && AllWellFormed(rows) && Valid(s.saleDate) && Valid(today)
    ensures AllWellFormed(RecordSale(rows, s, today))
  {
    var schedule := Generate(s);
    var all := rows + schedule;
    GeneratedWellFormed(s);
    assert AllWellFormed(all) by {
      assert forall k :: |rows| <= k < |all| ==> all[k] == schedule[k - |rows|];
    }
    RecalcWellFormed(all, today);
  }

}
