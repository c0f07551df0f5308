/**
 The installment generator: one sale becomes its schedule of installments,
 numbered from 1, due one, two, ... calendar months after the sale date.
 */
module Generation {
  import opened Wrappers
  import opened Calendar
  import opened Records

  /** The row copies the sale's identifying fields and its installment amount. */
  predicate InheritsSale(s: Sale, r: Installment) {
    && r.saleId == s.id
    && r.customer == s.customer
    && r.deviceModel == s.deviceModel
    && r.deviceBrand == s.deviceBrand
    && r.amount == s.installmentAmount
  }

  /** The row is a fresh, unpaid obligation: pending, no days overdue, no fee,
      no payment date. */
  predicate IsFresh(r: Installment) {
    r.status == Pending && r.daysOverdue == 0 && r.fee == 0 && r.paidOn == None
  }

  /** Installment number `i` of sale `s`. */
  function ScheduledInstallment(s: Sale, i: int): Installment
    requires Valid(s.saleDate)
  {
    Installment(s.id, s.customer, s.deviceModel, s.deviceBrand, i,
                s.installmentAmount, AddMonths(s.saleDate, i),
                Pending, 0, 0, None)
  }

  /** Installments `i`, `i + 1`, ..., up to the sale's installment count. */
  function ScheduleFrom(s: Sale, i: int): (r: seq<Installment>)
    requires Valid(s.saleDate) && i >= 1
    ensures |r| == if s.installmentCount >= i then s.installmentCount - i + 1 else 0
    ensures forall k :: 0 <= k < |r| ==> r[k].number == i + k
    ensures forall k :: 0 <= k < |r| ==> InheritsSale(s, r[k]) && IsFresh(r[k])
    ensures forall k :: 0 <= k < |r| ==> r[k].dueDate == AddMonths(s.saleDate, i + k)
    decreases s.installmentCount - i
  {
    if i > s.installmentCount then []
    else [ScheduledInstallment(s, i)] + ScheduleFrom(s, i + 1)
  }

  /** The full schedule of a sale: exactly `installmentCount` rows (none when
      the count is not positive), numbered 1..N in order, each due `k` calendar
      months after the sale date, each unpaid with no fee. */
  function Generate(s: Sale): (r: seq<Installment>)
    requires Valid(s.saleDate)
    ensures |r| == if s.installmentCount > 0 then s.installmentCount else 0
    ensures forall k :: 0 <= k < |r| ==> r[k].number == k + 1
    ensures forall k :: 0 <= k < |r| ==> InheritsSale(s, r[k]) && IsFresh(r[k])
    ensures forall k :: 0 <= k < |r| ==> r[k].dueDate == AddMonths(s.saleDate, k + 1)
  {
    ScheduleFrom(s, 1)
  }

  /** Due dates strictly increase along the schedule, and every one falls
      strictly after the sale date. */
  lemma GeneratedDueDatesIncrease(s: Sale)
    requires Valid(s.saleDate)
    ensures var r := Generate(s);
      forall j, k :: 0 <= j < k < |r| ==>
        Valid(r[j].dueDate) && DayNumber(r[j].dueDate) < DayNumber(r[k].dueDate)
    ensures var r := Generate(s);
      forall k :: 0 <= k < |r| ==> DayNumber(s.saleDate) < DayNumber(r[k].dueDate)
  {
    var r := Generate(s);
    forall j, k | 0 <= j < k < |r|
      ensures DayNumber(r[j].dueDate) < DayNumber(r[k].dueDate)
    {
      AddMonthsIncreasing(s.saleDate, j + 1, k + 1);
    }
    forall k | 0 <= k < |r|
      ensures DayNumber(s.saleDate) < DayNumber(r[k].dueDate)
    {
      AddMonthsIncreasing(s.saleDate, 0, k + 1);
      AddMonthsZero(s.saleDate);
    }
  }

  /** Every generated row satisfies the record invariant. */
  lemma GeneratedWellFormed(s: Sale)
    requires Valid(s.saleDate)
    ensures AllWellFormed(Generate(s)) && AllValidDates(Generate(s))
  {
  }

  /** A sale's schedule is identified by its numbers: for each n in 1..N there
      is exactly one row numbered n, and no other numbers occur. */
  lemma GeneratedNumbersExact(s: Sale, n: int)
    requires Valid(s.saleDate)
    ensures var r := Generate(s);
      (exists k :: 0 <= k < |r| && r[k].number == n) <==> 1 <= n <= s.installmentCount
    ensures var r := Generate(s);
      forall j, k :: 0 <= j < |r| && 0 <= k < |r| && r[j].number == n && r[k].number == n ==> j == k
  {
    var r := Generate(s);
    if 1 <= n <= s.installmentCount {
      assert r[n - 1].number == n;
    }
  }

  /** The worked example: a sale dated 31 January 2024 with three installments
      falls due on 29 February, 31 March and 30 April 2024. */
  lemma GenerateMonthEndExample()
    ensures var s := Sale(7, "Ana", "A54", "Samsung", 10000, 3, 45000, Date(2024, 1, 31));
      var r := Generate(s);
      |r| == 3
      && r[0].dueDate == Date(2024, 2, 29)
      && r[1].dueDate == Date(2024, 3, 31)
      && r[2].dueDate == Date(2024, 4, 30)
  {
    MonthEndExamples();
  }

}
