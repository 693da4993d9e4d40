/** The catalog the handlers of library_gui.py update in place: the two
    module-level lists become the two fields of one object, and each
    handler becomes a method taking the form's inputs already read. */
module Library {
  import opened Records
  import opened DueDates
  import opened YearInput
  import opened Transitions
  import opened Availability

  class Catalog {
    var books: seq<Book>
    var loans: seq<Loan>

    function Model(): State
      reads this
    {
      State(books, loans)
    }

    /** The lists as `load_data` read them; empty when no file exists yet. */
    constructor (loadedBooks: seq<Book>, loadedLoans: seq<Loan>)
      ensures books == loadedBooks && loans == loadedLoans
    {
      books := loadedBooks;
      loans := loadedLoans;
    }

    /** `add_book`. */
    method AddBook(title: string, author: string, year: string) returns (outcome: Outcome)
      modifies this
      ensures var r := Add(old(Model()), title, author, year);
        outcome == r.ToOutcome() && Model() == Commit(old(Model()), r)
      ensures old(Valid(Model())) && !HasId(old(books), NextId(old(books))) ==> Valid(Model())
    {
      if title != "" && author != "" && year != "" {
        books := books + [Book(|books| + 1, title, author, Text(year), true)];
        outcome := Done;
      } else {
        outcome := Failed(MissingFields);
      }
      if old(Valid(Model())) && !HasId(old(books), NextId(old(books))) {
        AddPreservesValid(old(Model()), title, author, year);
      }
    }

    /** `borrow_book`: the loop stops at the first available book with the
        id, marks it borrowed and appends the loan row. */
    method BorrowBook(id: int, student: string, now: int) returns (outcome: Outcome)
      modifies this
      ensures var r := Borrow(old(Model()), id, student, now);
        outcome == r.ToOutcome() && Model() == Commit(old(Model()), r)
      ensures old(Valid(Model())) ==> Valid(Model())
    {
      if old(Valid(Model())) {
        BorrowPreservesValid(Model(), id, student, now);
      }
      if student == "" {
        return Failed(MissingStudent);
      }
      var i := 0;
      while i < |books|
        invariant 0 <= i <= |books|
        invariant books == old(books) && loans == old(loans)
        invariant forall j :: 0 <= j < i ==> !IsTarget(books[j], id, true)
      {
        if books[i].id == id && books[i].available {
          var title := books[i].title;
          var borrowDay := DayOf(now);
          var dueDay := DayOf(now + LoanDays * SecondsPerDay);
          books := books[i := books[i].(available := false)];
          loans := loans + [Loan(id, title, student, borrowDay, dueDay)];
          return Done;
        }
        i := i + 1;
      }
      return Failed(NotAvailable);
    }

    /** `return_book`: the loop stops at the first borrowed book with the
        id, marks it available and drops every loan row of that id. */
    method ReturnBook(id: int) returns (outcome: Outcome)
      modifies this
      ensures var r := Return(old(Model()), id);
        outcome == r.ToOutcome() && Model() == Commit(old(Model()), r)
      ensures old(Valid(Model())) ==> Valid(Model())
    {
      if old(Valid(Model())) {
        ReturnPreservesValid(Model(), id);
      }
      var i := 0;
      while i < |books|
        invariant 0 <= i <= |books|
        invariant books == old(books) && loans == old(loans)
        invariant forall j :: 0 <= j < i ==> !IsTarget(books[j], id, false)
      {
        if books[i].id == id && !books[i].available {
          books := books[i := books[i].(available := true)];
          loans := LoansNotOf(loans, id);
          return Done;
        }
        i := i + 1;
      }
      return Failed(NotBorrowed);
    }

    /** The edit dialog and its `save_changes`. */
    method EditBook(id: int, title: string, author: string, yearText: string) returns (outcome: Outcome)
      modifies this
      ensures var r := Edit(old(Model()), id, title, author, yearText);
        outcome == r.ToOutcome() && Model() == Commit(old(Model()), r)
      ensures old(Valid(Model())) ==> Valid(Model())
    {
      if old(Valid(Model())) {
        EditPreservesValid(Model(), id, title, author, yearText);
      }
      var found := FirstWithId(books, id);
      if found.None? {
        return Failed(NotFound);
      }
      var k := found.value;
      if title == "" || author == "" || yearText == "" {
        return Failed(MissingFields);
      }
      var year := EditYear(yearText);
      if year.None? {
        return Failed(InvalidYear);
      }
      books := books[k := books[k].(title := title, author := author, year := Num(year.value))];
      return Done;
    }

    /** `delete_selected` as intended, once the user has confirmed. As
        written the handler raises UnboundLocalError before changing
        anything (see `Transitions.DeleteAsWritten`). */
    method DeleteBook(id: int) returns (outcome: Outcome)
      modifies this
      ensures var r := Delete(old(Model()), id);
        outcome == r.ToOutcome() && Model() == Commit(old(Model()), r)
      ensures old(Valid(Model())) ==> Valid(Model())
    {
      if old(Valid(Model())) {
        DeletePreservesValid(Model(), id);
      }
      var found := FirstWithId(books, id);
      if found.Some? && !books[found.value].available {
        return Failed(OnLoan);
      }
      books := BooksNotWithId(books, id);
      loans := LoansNotOf(loans, id);
      return Done;
    }
  }

  /** The walk-through of an empty catalog, first half: add "1984",
      borrow it, and fail to delete it while it is on loan. */
  method WalkthroughBorrow(now: int) returns (c: Catalog, refused: Outcome)
    ensures fresh(c)
    ensures c.books == [Book(1, "1984", "Orwell", Text("1949"), false)]
    ensures c.loans == [Loan(1, "1984", "Alice", DayOf(now), DayOf(now) + 14)]
    ensures refused == Failed(OnLoan)
  {
    var book := Book(1, "1984", "Orwell", Text("1949"), true);
    c := new Catalog([], []);
    var o := c.AddBook("1984", "Orwell", "1949");
    assert o == Done && c.books == [book] && c.loans == [];
    assert FirstTarget([book], 1, true) == Some(0);
    o := c.BorrowBook(1, "Alice", now);
    DueDayIsTwoWeeksLater(now);
    assert o == Done;
    assert FirstWithId(c.books, 1) == Some(0);
    refused := c.DeleteBook(1);
  }

  /** Second half: return the book, after which deleting it empties the catalog. */
  method WalkthroughReturn(now: int) returns (c: Catalog)
    ensures c.books == [] && c.loans == []
  {
    var refused;
    c, refused := WalkthroughBorrow(now);
    var loan := c.loans[0];
    assert FirstTarget(c.books, 1, false) == Some(0);
    assert LoansNotOf([loan], 1) == [];
    var o := c.ReturnBook(1);
    assert o == Done && c.books[0].available && c.loans == [];
    assert FirstWithId(c.books, 1) == Some(0);
    assert BooksNotWithId(c.books, 1) == [];
    assert LoansNotOf([], 1) == [];
    o := c.DeleteBook(1);
    assert o == Done;
  }
}
