/**
 The two record kinds of the tracker: a sale and one of its installments.
 Money is held in integer cents, so amounts rounded to two decimal places are
 exact; dates are day-granularity calendar dates.
 */
module Records {
  import opened Wrappers
  import opened Calendar

  /** Installment status: "Pendente", "Atrasada" and "Pago" in the stored table. */
  datatype Status = Pending | Overdue | Paid

  /** One sale: who bought which device, the down payment, and the installment plan. */
  datatype Sale = Sale(
    id: int,
    customer: string,
    deviceModel: string,
    deviceBrand: string,
    downPayment: int,        // cents
    installmentCount: int,
    installmentAmount: int,  // cents
    saleDate: Date)

  /** One scheduled payment of a sale. `daysOverdue` and `fee` are derived from
      the due date and the reference date; `paidOn` is absent until paid. */
  datatype Installment = Installment(
    saleId: int,
    customer: string,
    deviceModel: string,
    deviceBrand: string,
    number: int,
    amount: int,             // cents
    dueDate: Date,
    status: Status,
    daysOverdue: int,
    fee: int,                // cents
    paidOn: Option<Date>)

  /** The fixed late fee per day overdue: 3.90 in cents. */
  const DailyFee: int := 390

  /** Two rows describe the same payment obligation: every field other than the
      status, the derived day count and fee, and the payment date agrees. */
  predicate SameObligation(a: Installment, b: Installment) {
    && a.saleId == b.saleId
    && a.customer == b.customer
    && a.deviceModel == b.deviceModel
    && a.deviceBrand == b.deviceBrand
    && a.number == b.number
    && a.amount == b.amount
    && a.dueDate == b.dueDate
  }

  /** The record-level invariant every operation keeps: a row is paid exactly
      when it carries a payment date, a paid row has no days overdue and no fee,
      and the fee is always the daily fee times a non-negative day count. */
  predicate WellFormed(r: Installment) {
    && (r.status == Paid <==> r.paidOn.Some?)
    && r.daysOverdue >= 0
    && r.fee == r.daysOverdue * DailyFee
    && (r.status == Paid ==> r.daysOverdue == 0)
    && (r.status == Overdue <==> r.daysOverdue > 0)
  }

  predicate AllWellFormed(rows: seq<Installment>) {
    forall i :: 0 <= i < |rows| ==> WellFormed(rows[i])
  }

  predicate AllValidDates(rows: seq<Installment>) {
    forall i :: 0 <= i < |rows| ==> Valid(rows[i].dueDate)
  }

}
