# Installment-sales tracker — a Dafny model of its domain logic

The tracker records sales of devices paid in installments ("parcelas"). Each
sale generates a schedule of monthly installments. On every load the overdue
days, the fixed daily late fee (3.90 per day) and the status ("Pendente",
"Atrasada", "Pago") of each installment are recomputed as of today. A user can
mark a single (sale id, installment number) pair as paid. A sidebar shows the
total sold, received, pending and accrued in fees.

This project models that logic as pure functions over immutable records:

- `Calendar` (calendar.dfy): proleptic Gregorian dates, calendar-month addition with
  month-end clamping, and the day ordinal used to count whole days.
- `Records` (records.dfy): the `Sale` and `Installment` records, the `Status` enum,
  the daily fee (390 cents) and the record invariant `WellFormed`.
- `Generation` (generation.dfy): the schedule of one sale.
- `Overdue` (overdue.dfy): recalculation of days overdue, fee and status.
- `Payment` (payment.dfy): the mark-as-paid keyed update.
- `Reports` (reports.dfy): the status filter, the overdue-only toggle and the totals.
- `Session` (session.dfy): recording a sale, which appends its schedule and recalculates.
- `Wrappers` (wrappers.dfy): `Option`, used for the payment date.

Modelling choices:

- Money is integer cents, so rounding to two decimals is exact.
- "Today" is an explicit parameter, never a clock read.
- Dates are `(year, month, day)` triples. The whole-day difference between two
  dates is the difference of their ordinals. `DayNumber` is the same formula as
  Python's `date.toordinal`.
- `AddMonths` follows the month arithmetic of dateutil's `relativedelta(months=n)`:
  - an offset larger than 11 months in size is split into years and at most 11 months, keeping the sign;
  - the months are added with one carry into the year;
  - the day is clamped to the length of the target month.

  dateutil is not part of this model. Its contract is proved against the month
  index (`year * 12 + month - 1`), independently of that algorithm.

Where the code and its design description differ, the model follows the code:

- Recalculation treats a row as settled when its status is "Pago" OR it has a
  payment date. For a settled row it only zeroes the day count and the fee and
  keeps the status. A row with a payment date but status "Pendente" stays
  "Pendente"; it is not forced to "Pago". The operations never create such a
  row: `WellFormed` ties "Pago" to a present payment date, and every operation
  preserves it.
- Mark-as-paid updates every row that matches the key, not "the unique" one.
  It also re-marks a row that is already paid, which moves its payment date to
  today. A key that matches nothing is a silent no-op, and the model keeps it so.
- An installment count of zero or less yields an empty schedule (`range(1, n + 1)`).

## Model

| member | source | states |
|---|---|---|
| Calendar.AddMonths | sistema_parcelas.py:42-44 | the result is a real date exactly n months later by month index (the year carries); it keeps the day when the target month has it and is otherwise the target month's last day |
| Calendar.AddMonthsZero | sistema_parcelas.py:42-44 | adding zero months gives back the same date |
| Calendar.AddMonthsCompose | sistema_parcelas.py:42-44 | for days up to 28 no clamping happens, and adding i then j months equals adding i + j |
| Calendar.AddMonthsIncreasing | sistema_parcelas.py:42-44 | more months give a strictly later date, both chronologically and in day ordinal |
| Calendar.MonthEndExamples | sistema_parcelas.py:42-44 | Jan 31 2024 plus 1, 2, 3 months gives Feb 29 (leap-year clamp), Mar 31 and Apr 30 (clamp); Jan 31 2023 plus 1 gives Feb 28; Nov 15 2024 plus 14 months gives Jan 15 2026 (year carry) |
| Calendar.DayNumberOrder | sistema_parcelas.py:84 | on valid dates, chronological order and day-ordinal order coincide (both directions) |
| Calendar.DayNumberNextDay | sistema_parcelas.py:84 | the following calendar day is valid and has ordinal exactly one more, so ordinal differences count whole days |
| Calendar.DayNumberEpoch | sistema_parcelas.py:84 | 0001-01-01 has ordinal 1, as Python's date ordinal does |
| Generation.ScheduleFrom | sistema_parcelas.py:55-69 | the installments from number i on: count − i + 1 rows (or none), numbered i, i+1, … in order, each copying the sale and due i+k months after the sale date |
| Generation.Generate | sistema_parcelas.py:46-70 | exactly num_parcelas rows (none if not positive), numbered 1..N in order; each copies sale id, customer, model, brand and the installment amount; each is due k months after the sale date, pending, with 0 days, 0 fee and no payment date |
| Generation.GeneratedDueDatesIncrease | sistema_parcelas.py:55-56 | due dates strictly increase with the installment number, and all fall after the sale date |
| Generation.GeneratedNumbersExact | sistema_parcelas.py:55-62 | some row has number n exactly when 1 ≤ n ≤ N, and at most one row has it |
| Generation.GeneratedWellFormed | sistema_parcelas.py:55-69 | every generated row satisfies the record invariant and has a real due date |
| Generation.GenerateMonthEndExample | sistema_parcelas.py:54-56 | a three-installment sale on 2024-01-31 falls due 2024-02-29, 2024-03-31, 2024-04-30 |
| Overdue.DaysOverdue | sistema_parcelas.py:84-86 | the count is non-negative; it is zero exactly when the due date is not before today; otherwise the due date's ordinal plus the count is today's |
| Overdue.IsSettled | sistema_parcelas.py:80 | on a well-formed row, "status Pago or a payment date present" holds exactly when the status is Pago |
| Overdue.RecalcRow | sistema_parcelas.py:79-93 | the obligation and payment date are kept. A settled row (status Pago or a payment date) keeps its status with 0 days and 0 fee. Any other row gets the days overdue and a fee of 390 cents per day, and is Atrasada exactly when its due date is before today, else Pendente |
| Overdue.Recalc | sistema_parcelas.py:72-95 | same length and order (so empty stays empty), with each row recalculated in place |
| Overdue.RecalcRowFixpoint | sistema_parcelas.py:79-93 | a recalculated row is up to date, and recalculation leaves a row unchanged exactly when it already is |
| Overdue.RecalcFixpoint | sistema_parcelas.py:72-95 | the collection is unchanged exactly when every row is up to date, and afterwards every row is |
| Overdue.RecalcIdempotent | sistema_parcelas.py:72-95 | recalculating twice with the same today equals recalculating once |
| Overdue.RecalcKeepsSettled | sistema_parcelas.py:80-82 | every row keeps its obligation and payment date; a row is Pago afterwards exactly when it was before; settled rows keep their status |
| Overdue.RecalcWellFormed | sistema_parcelas.py:79-93 | recalculation preserves the record invariant |
| Overdue.TenDaysOverdueExample | sistema_parcelas.py:84-92 | an unpaid row due 2024-02-29, recalculated on 2024-03-10, is 10 days overdue with a fee of 39.00 and status Atrasada |
| Payment.MarkPaid | sistema_parcelas.py:195-199 | same length; each row matching (sale id, number) keeps its obligation and becomes Pago, paid today, with 0 days and 0 fee; every other row is unchanged |
| Payment.MarkPaidNoMatch | sistema_parcelas.py:195-199 | with no matching row the collection is returned unchanged |
| Payment.MarkPaidIdempotent | sistema_parcelas.py:195-199 | marking the same key twice on the same day equals marking it once |
| Payment.MarkPaidWellFormed | sistema_parcelas.py:195-199 | marking preserves the record invariant and the due dates |
| Payment.MarkedRowSurvivesRecalc | sistema_parcelas.py:195-199 | a later recalculation on any day leaves a marked row Pago, paid on the marking day, with 0 days and 0 fee |
| Reports.WithStatus | sistema_parcelas.py:174-175 | a subsequence of the input that keeps each row with the selected status exactly as often as it occurs and drops every other row |
| Reports.FilterByStatus | sistema_parcelas.py:174-175 | "Todos" returns the table unchanged; a selected status keeps exactly the rows with that status, with their multiplicity, in order |
| Reports.OverdueOnly | sistema_parcelas.py:176-177 | the toggle off returns the table unchanged; on, it keeps exactly the Atrasada rows, with their multiplicity, in order |
| Reports.ApplyFilters | sistema_parcelas.py:174-177 | the filtered table is a subsequence of the input; a row is shown exactly when it has the selected status (any, for "Todos") and, with the toggle on, is Atrasada; each shown row appears as often as in the input |
| Reports.WithStatusIdempotent | sistema_parcelas.py:174-177 | filtering by a status twice is filtering once |
| Reports.WithStatusDisjoint | sistema_parcelas.py:174-177 | filtering by one status and then another leaves nothing |
| Reports.OverdueToggleMatchesStatusFilter | sistema_parcelas.py:174-177 | the toggle alone, or with status Atrasada, selects the same rows as status Atrasada; with any other status it selects nothing |
| Reports.TotalReceived | sistema_parcelas.py:212 | total received equals the sum of amounts over what the Pago status filter shows (also stated by ReceivedIsPaidFilterSum) |
| Reports.TotalPending | sistema_parcelas.py:213 | total pending is the sum of all amounts less total received (also stated by ReceivedPlusPending) |
| Reports.SumFees | sistema_parcelas.py:214 | on well-formed rows, total fees are 390 cents times the total days overdue (RecalcKeepsTotals states it after any recalculation) |
| Reports.TotalSold | sistema_parcelas.py:211 | for valid sales with non-negative counts, total sold equals the down payments plus the sum of all generated schedules (also stated by TotalSoldMatchesSchedules) |
| Reports.ReceivedPlusPending | sistema_parcelas.py:212-213 | total received plus total pending is the sum of all installment amounts |
| Reports.ReceivedIsPaidFilterSum | sistema_parcelas.py:212 | total received is the sum over the rows the Pago filter shows |
| Reports.GeneratedTotal | sistema_parcelas.py:211 | one sale's schedule sums to its installment amount times its count (0 if not positive) |
| Reports.TotalSoldMatchesSchedules | sistema_parcelas.py:211 | for non-negative counts, total sold is the down payments plus the sum of all generated schedules |
| Reports.RecalcKeepsTotals | sistema_parcelas.py:212-214 | recalculation changes neither total received nor total pending; total fees are 390 cents times the total days overdue |
| Reports.MarkPaidKeepsTotal | sistema_parcelas.py:212-213 | marking paid keeps received plus pending unchanged, for any amounts |
| Reports.MarkPaidMovesToReceived | sistema_parcelas.py:212-213 | with non-negative amounts, marking paid never lowers total received and never raises total pending |
| Session.RecordSale | sistema_parcelas.py:144-147 | the result is the old rows followed by the sale's schedule, every row recalculated as of today (each equals RecalcRow of its source row); existing rows keep obligations and payment dates; appended rows are numbered 1..N, due k months after the sale date, unpaid, and Atrasada exactly when already due |
| Session.RecordSaleWellFormed | sistema_parcelas.py:144-147 | recording a sale preserves the record invariant |

## Left out

- Streamlit presentation: page setup, tabs, forms, buttons, reruns, table display and display sorting (sistema_parcelas.py:13, :111-207, :216-222). It is UI only.
- CSV persistence: `ensure_files`, `load_*`, `save_*`. It is file I/O. A save is a wholesale replacement of the collection, which the pure functions already return.
- Sale id from the UTC clock and the `created_at` timestamp. They depend on the ambient clock. The sale id is a parameter of the `Sale` record.
- Appending the new sale to the sales table (sistema_parcelas.py:141-142). This is a plain append to a sequence. Only `Reports.TotalSold` reads the sales table.
- `currency` formatting. It is string presentation of floats.
- The case-insensitive customer filter (sistema_parcelas.py:173). pandas treats the text as a regular expression, which is not modelled.
- Float arithmetic. `round(valor, 2)` and `round(dias * 3.90, 2)` are exact integer-cent values here, so IEEE rounding effects are not reproduced.
- Calendar range limits. Python dates stop at years 1..9999 and pandas timestamps at 1677..2262, and the source raises past them. Model dates have unbounded years.
- pandas `NaT` and `normalize`. The payment date is an `Option`, and dates are whole days.
- Status values other than the three named ones. A hand-edited CSV could hold any string; the enum cannot.
- Timestamp normalisation (sistema_parcelas.py:76-77). The source normalises due timestamps to midnight; model dates are already whole days.
