/** The records of the library catalog: books, loans and the catalog state
    made of the two lists that library_gui.py keeps as module globals. */
module Records {

  datatype Option<T> = None | Some(value: T)

  /** `publication_year` is the raw text typed in the add form, and an
      integer once the edit dialog has saved the book. */
  datatype Year = Text(text: string) | Num(year: int)

  datatype Book = Book(id: int, title: string, author: string, year: Year, available: bool)

  /** A loan row. The two dates are stored as "YYYY-MM-DD" strings by the
      source; here they are day numbers (days since the epoch). */
  datatype Loan = Loan(bookId: int, bookTitle: string, studentName: string, borrowDay: int, dueDay: int)

  /** `books` and `borrowed_books`, in list order. */
  datatype State = State(books: seq<Book>, loans: seq<Loan>)

  const Empty := State([], [])

  /** The reasons the handlers refuse an action: an error dialog, or for
      `UnboundLocal` an exception that escapes the Tk callback. */
  datatype Error =
    | MissingFields      // "Please fill all fields!" / "All fields are required."
    | MissingStudent     // "Please enter student name!"
    | NotAvailable       // "Book not available or invalid book ID!"
    | NotBorrowed        // "Book not found or already returned!"
    | NotFound           // "Book not found." (edit dialog)
    | InvalidYear        // "Please enter a valid year (1000-9999)."
    | OnLoan             // "Cannot delete a borrowed book."
    | UnboundLocal       // the UnboundLocalError of delete as written; no dialog, only a traceback

  datatype Outcome = Done | Failed(error: Error)

  /** The effect of one handler: the new state, or the error it reports
      while leaving the state as it was. */
  datatype Result<T> = Ok(value: T) | Err(error: Error) {
    function ToOutcome(): Outcome {
      if Ok? then Done else Failed(error)
    }
  }

  /** The state a handler with effect `r` leaves behind, starting from `s`. */
  function Commit(s: State, r: Result<State>): State {
    if r.Ok? then r.value else s
  }
}
