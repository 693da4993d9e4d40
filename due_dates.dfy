/** Loan dates, the overdue list (`show_overdue_view`) and the status
    column of the borrowed-books table (`show_borrowed_books_view`).
    Time is a count of seconds of naive local time; a date is the day
    number that contains it. */
module DueDates {
  import opened Records

  const SecondsPerDay := 86400
  const LoanDays := 14

  /** The date `strftime('%Y-%m-%d')` keeps of an instant (floor division). */
  function DayOf(t: int): int {
    t / SecondsPerDay
  }

  /** `strptime` turns a stored date back into the instant at midnight. */
  function Midnight(day: int): int {
    day * SecondsPerDay
  }

  /** `today > due_date`, with the due date read back at midnight. */
  predicate IsOverdue(l: Loan, now: int) {
    now > Midnight(l.dueDay)
  }

  /** `(today - due_date).days`: whole days, rounded down. */
  function DaysOverdue(l: Loan, now: int): int {
    (now - Midnight(l.dueDay)) / SecondsPerDay
  }

  datatype Status = OnTime | Overdue

  function StatusOf(l: Loan, now: int): Status {
    if IsOverdue(l, now) then Overdue else OnTime
  }

  datatype OverdueRow = OverdueRow(loan: Loan, daysOverdue: int)

  datatype StatusRow = StatusRow(loan: Loan, status: Status)

  /** The rows of the overdue table, in loan order. */
  function OverdueRows(loans: seq<Loan>, now: int): (r: seq<OverdueRow>)
    ensures |r| <= |loans|
    ensures forall i :: 0 <= i < |r| ==>
      r[i].loan in loans && IsOverdue(r[i].loan, now) && r[i].daysOverdue == DaysOverdue(r[i].loan, now)
    ensures forall i :: 0 <= i < |loans| && IsOverdue(loans[i], now) ==>
      OverdueRow(loans[i], DaysOverdue(loans[i], now)) in r
  {
    if loans == [] then []
    else
      var rest := OverdueRows(loans[1..], now);
      if IsOverdue(loans[0], now) then [OverdueRow(loans[0], DaysOverdue(loans[0], now))] + rest
      else rest
  }

  /** The rows of the borrowed-books table: every loan with its status. */
  function BorrowedRows(loans: seq<Loan>, now: int): (r: seq<StatusRow>)
    ensures |r| == |loans|
    ensures forall i :: 0 <= i < |loans| ==> r[i].loan == loans[i]
    ensures forall i :: 0 <= i < |loans| ==> (r[i].status == Overdue <==> IsOverdue(loans[i], now))
  {
    if loans == [] then []
    else [StatusRow(loans[0], StatusOf(loans[0], now))] + BorrowedRows(loans[1..], now)
  }

  function OverdueLoans(rows: seq<OverdueRow>): seq<Loan> {
    if rows == [] then [] else [rows[0].loan] + OverdueLoans(rows[1..])
  }

  function LoansWithStatus(rows: seq<StatusRow>, status: Status): seq<Loan> {
    if rows == [] then []
    else if rows[0].status == status then [rows[0].loan] + LoansWithStatus(rows[1..], status)
    else LoansWithStatus(rows[1..], status)
  }

  /** The overdue view lists exactly the loans, in the same order, that the
      borrowed view marks "Overdue". */
  lemma {:induction false} OverdueViewAgreesWithStatus(loans: seq<Loan>, now: int)
    ensures OverdueLoans(OverdueRows(loans, now)) == LoansWithStatus(BorrowedRows(loans, now), Overdue)
  {
    if loans != [] {
      OverdueViewAgreesWithStatus(loans[1..], now);
      assert BorrowedRows(loans, now)[1..] == BorrowedRows(loans[1..], now);
    }
  }

  /** The day count of an overdue loan is the number of whole days since
      midnight of the due date, never negative. */
  lemma DaysOverdueMeaning(l: Loan, now: int)
    requires IsOverdue(l, now)
    ensures var d := DaysOverdue(l, now);
      0 <= d && Midnight(l.dueDay + d) <= now < Midnight(l.dueDay + d + 1)
  {
  }

  /** A loan is already overdue, by 0 days, from the first second of its due date. */
  lemma OverdueOnDueDate(l: Loan, now: int)
    requires Midnight(l.dueDay) < now < Midnight(l.dueDay + 1)
    ensures StatusOf(l, now) == Overdue && DaysOverdue(l, now) == 0
  {
  }

  /** Due 2024-01-01 and looked at on 2024-01-11: 10 days overdue. */
  lemma TenDaysOverdue(l: Loan, now: int)
    requires DayOf(now) == l.dueDay + 10
    ensures IsOverdue(l, now) && DaysOverdue(l, now) == 10
  {
  }

  /** The due date written at borrow time is the borrow date plus 14 days. */
  lemma DueDayIsTwoWeeksLater(now: int)
    ensures DayOf(now + LoanDays * SecondsPerDay) == DayOf(now) + LoanDays
  {
  }

  /** A loan just made is on time until its due date begins. */
  lemma NewLoanOnTime(l: Loan, borrowed: int, now: int)
    requires l.dueDay == DayOf(borrowed + LoanDays * SecondsPerDay)
    requires now <= Midnight(DayOf(borrowed) + LoanDays)
    ensures StatusOf(l, now) == OnTime
  {
    DueDayIsTwoWeeksLater(borrowed);
  }
}
