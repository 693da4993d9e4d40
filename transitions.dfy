/** What each catalog handler of library_gui.py does to the pair of lists
    (`books`, `borrowed_books`), as a function of the state before it.
    Inputs arrive already read from the form; the book id as an integer,
    the clock as seconds. */
module Transitions {
  import opened Records
  import opened Sequences
  import opened YearInput
  import opened DueDates

  /** `next((b for b in books if b['id'] == id), None)`. */
  function FirstWithId(books: seq<Book>, id: int): (r: Option<nat>)
    ensures r.Some? ==> r.value < |books| && books[r.value].id == id
    ensures r.Some? ==> forall j :: 0 <= j < r.value ==> books[j].id != id
    ensures r.None? ==> forall j :: 0 <= j < |books| ==> books[j].id != id
  {
    if books == [] then None
    else if books[0].id == id then Some(0)
    else match FirstWithId(books[1..], id)
      case None => None
      case Some(k) => Some(k + 1)
  }

  predicate IsTarget(b: Book, id: int, available: bool) {
    b.id == id && b.available == available
  }

  /** The book the borrow loop (`available`) or the return loop
      (`not available`) stops at: the first with the id and that status. */
  function FirstTarget(books: seq<Book>, id: int, available: bool): (r: Option<nat>)
    ensures r.Some? ==> r.value < |books| && IsTarget(books[r.value], id, available)
    ensures r.Some? ==> forall j :: 0 <= j < r.value ==> !IsTarget(books[j], id, available)
    ensures r.None? ==> forall j :: 0 <= j < |books| ==> !IsTarget(books[j], id, available)
  {
    if books == [] then None
    else if IsTarget(books[0], id, available) then Some(0)
    else match FirstTarget(books[1..], id, available)
      case None => None
      case Some(k) => Some(k + 1)
  }

  /** `[b for b in borrowed_books if b['book_id'] != id]`. */
  function LoansNotOf(loans: seq<Loan>, id: int): seq<Loan> {
    Filter(loans, (l: Loan) => l.bookId != id)
  }

  /** The number of loan rows that name the book `id`. */
  function CountLoans(loans: seq<Loan>, id: int): nat {
    if loans == [] then 0
    else (if loans[0].bookId == id then 1 else 0) + CountLoans(loans[1..], id)
  }

  /** The number of books that carry the id `id`. */
  function CountBooks(books: seq<Book>, id: int): nat {
    if books == [] then 0
    else (if books[0].id == id then 1 else 0) + CountBooks(books[1..], id)
  }

  /** `[b for b in books if b['id'] != id]`. */
  function BooksNotWithId(books: seq<Book>, id: int): seq<Book> {
    Filter(books, (b: Book) => b.id != id)
  }

  /** The id `add_book` gives a new book: one more than the number of books. */
  function NextId(books: seq<Book>): int {
    |books| + 1
  }

  /** `add_book`: the three fields must be non-empty; the year is kept as typed. */
  function Add(s: State, title: string, author: string, year: string): Result<State> {
    if title != "" && author != "" && year != "" then
      Ok(State(s.books + [Book(NextId(s.books), title, author, Text(year), true)], s.loans))
    else Err(MissingFields)
  }

  /** The loan row `borrow_book` appends. */
  function NewLoan(b: Book, id: int, student: string, now: int): Loan {
    Loan(id, b.title, student, DayOf(now), DayOf(now + LoanDays * SecondsPerDay))
  }

  /** `borrow_book`. */
  function Borrow(s: State, id: int, student: string, now: int): Result<State> {
    if student == "" then Err(MissingStudent)
    else match FirstTarget(s.books, id, true)
      case None => Err(NotAvailable)
      case Some(k) =>
        Ok(State(s.books[k := s.books[k].(available := false)], s.loans + [NewLoan(s.books[k], id, student, now)]))
  }

  /** `return_book`. */
  function Return(s: State, id: int): Result<State> {
    match FirstTarget(s.books, id, false)
    case None => Err(NotBorrowed)
    case Some(k) => Ok(State(s.books[k := s.books[k].(available := true)], LoansNotOf(s.loans, id)))
  }

  /** The edit dialog: opened on the first book with the id, then `save_changes`. */
  function Edit(s: State, id: int, title: string, author: string, yearText: string): Result<State> {
    match FirstWithId(s.books, id)
    case None => Err(NotFound)
    case Some(k) =>
      if title == "" || author == "" || yearText == "" then Err(MissingFields)
      else match EditYear(yearText)
        case None => Err(InvalidYear)
        case Some(y) => Ok(State(s.books[k := s.books[k].(title := title, author := author, year := Num(y))], s.loans))
  }

  /** `delete_selected` as its author intended it (after the user confirmed):
      refuse when the first book with the id is on loan, otherwise drop every
      book with the id and every loan of it. */
  function Delete(s: State, id: int): Result<State> {
    var k := FirstWithId(s.books, id);
    if k.Some? && !s.books[k.value].available then Err(OnLoan)
    else Ok(State(BooksNotWithId(s.books, id), LoansNotOf(s.loans, id)))
  }

  /** `delete_selected` as written: it assigns `books` and `borrowed_books`
      without a `global` declaration, so Python makes both names local to
      the handler, and the lookup that reads `books` first raises
      UnboundLocalError before anything is changed or saved. */
  function DeleteAsWritten(s: State, id: int): Result<State> {
    Err(UnboundLocal)
  }
}

/** What each transition changes and what it leaves alone. */
module TransitionFacts {
  import opened Records
  import opened Sequences
  import opened YearInput
  import opened DueDates
  import opened Transitions

  /** Add is refused unless title, author and year are all non-empty; then
      exactly one book is appended, available, with id `|books| + 1` and the
      year as typed, and every existing book and every loan stays as it was. */
  lemma AddAppendsOneBook(s: State, title: string, author: string, year: string)
    ensures Add(s, title, author, year).Ok? <==> title != "" && author != "" && year != ""
    ensures Add(s, title, author, year).Err? ==> Add(s, title, author, year).error == MissingFields
    ensures var r := Add(s, title, author, year); r.Ok? ==>
      && |r.value.books| == |s.books| + 1
      && r.value.books[..|s.books|] == s.books
      && r.value.books[|s.books|] == Book(|s.books| + 1, title, author, Text(year), true)
      && r.value.loans == s.loans
  {
  }

  /** Borrow is refused for an empty student name, and when no book has the
      id and is available; otherwise only the first such book changes, to
      unavailable, and one loan is appended that copies its title and is due
      14 days after the borrow date. */
  lemma BorrowMarksFirstAvailable(s: State, id: int, student: string, now: int)
    ensures Borrow(s, id, student, now).Ok? <==>
      student != "" && exists j :: 0 <= j < |s.books| && IsTarget(s.books[j], id, true)
    ensures student == "" ==> Borrow(s, id, student, now) == Err(MissingStudent)
    ensures student != "" && Borrow(s, id, student, now).Err? ==> Borrow(s, id, student, now).error == NotAvailable
    ensures var r := Borrow(s, id, student, now); r.Ok? ==>
      var k := FirstTarget(s.books, id, true).value;
      && s.books[k].id == id && s.books[k].available
      && (forall j :: 0 <= j < k ==> !IsTarget(s.books[j], id, true))
      && |r.value.books| == |s.books|
      && (forall j :: 0 <= j < |s.books| && j != k ==> r.value.books[j] == s.books[j])
      && r.value.books[k] == s.books[k].(available := false)
      && r.value.loans == s.loans + [Loan(id, s.books[k].title, student, DayOf(now), DayOf(now) + LoanDays)]
  {
    if student != "" && FirstTarget(s.books, id, true).Some? {
      DueDayIsTwoWeeksLater(now);
    }
  }

  /** Dropping the loans of a book removes as many rows as name it. */
  lemma {:induction false} LoansNotOfLength(loans: seq<Loan>, id: int)
    ensures |LoansNotOf(loans, id)| == |loans| - CountLoans(loans, id)
  {
    if loans != [] {
      LoansNotOfLength(loans[1..], id);
    }
  }

  /** Dropping the books with an id removes as many as carry it. */
  lemma {:induction false} BooksNotWithIdLength(books: seq<Book>, id: int)
    ensures |BooksNotWithId(books, id)| == |books| - CountBooks(books, id)
  {
    if books != [] {
      BooksNotWithIdLength(books[1..], id);
    }
  }

  /** Return is refused when no book has the id and is on loan; otherwise
      only the first such book changes, to available, and exactly the loans
      of that id are dropped, the others keeping their order. */
  lemma ReturnFreesFirstBorrowed(s: State, id: int)
    ensures Return(s, id).Ok? <==> exists j :: 0 <= j < |s.books| && IsTarget(s.books[j], id, false)
    ensures Return(s, id).Err? ==> Return(s, id).error == NotBorrowed
    ensures var r := Return(s, id); r.Ok? ==>
      var k := FirstTarget(s.books, id, false).value;
      && s.books[k].id == id && !s.books[k].available
      && (forall j :: 0 <= j < k ==> !IsTarget(s.books[j], id, false))
      && |r.value.books| == |s.books|
      && (forall j :: 0 <= j < |s.books| && j != k ==> r.value.books[j] == s.books[j])
      && r.value.books[k] == s.books[k].(available := true)
      && IsSubsequence(r.value.loans, s.loans)
      && (forall i :: 0 <= i < |r.value.loans| ==> r.value.loans[i].bookId != id)
      && (forall i :: 0 <= i < |s.loans| && s.loans[i].bookId != id ==> s.loans[i] in r.value.loans)
      && |r.value.loans| == |s.loans| - CountLoans(s.loans, id)
  {
    FilterIsSubsequence(s.loans, (l: Loan) => l.bookId != id);
    LoansNotOfLength(s.loans, id);
  }

  /** Edit is refused when no book has the id, when a field is empty, or
      when the year is not an integer from 1000 to 9999; otherwise only the
      title, author and year (now a number) of the first book with the id
      change: its id and availability, every other book and every loan
      stay as they were. */
  lemma EditChangesOnlyThreeFields(s: State, id: int, title: string, author: string, yearText: string)
    ensures Edit(s, id, title, author, yearText).Ok? <==>
      && (exists j :: 0 <= j < |s.books| && s.books[j].id == id)
      && title != "" && author != "" && yearText != ""
      && EditYear(yearText).Some?
    ensures var r := Edit(s, id, title, author, yearText); r.Ok? ==>
      var k := FirstWithId(s.books, id).value;
      var b := r.value.books[k];
      && |r.value.books| == |s.books|
      && (forall j :: 0 <= j < |s.books| && j != k ==> r.value.books[j] == s.books[j])
      && b.id == s.books[k].id && b.available == s.books[k].available
      && b.title == title && b.author == author
      && b.year.Num? && 1000 <= b.year.year <= 9999 && ParseInt(yearText) == Some(b.year.year)
      && r.value.loans == s.loans
  {
  }

  /** Delete is refused, changing nothing, exactly when the first book
      with the id is on loan. */
  lemma DeleteRefusedWhileOnLoan(s: State, id: int)
    ensures Delete(s, id).Err? <==>
      exists k :: 0 <= k < |s.books| && s.books[k].id == id && !s.books[k].available
                  && forall j :: 0 <= j < k ==> s.books[j].id != id
    ensures Delete(s, id).Err? ==> Delete(s, id).error == OnLoan
  {
    var f := FirstWithId(s.books, id);
    if f.Some? && !s.books[f.value].available {
      assert s.books[f.value].id == id;
    }
  }

  /** Otherwise every book with the id and every loan of it go, and the
      survivors keep their order. */
  lemma DeleteRemovesAllWithId(s: State, id: int)
    ensures var r := Delete(s, id); r.Ok? ==>
      && IsSubsequence(r.value.books, s.books)
      && (forall i :: 0 <= i < |r.value.books| ==> r.value.books[i].id != id)
      && (forall i :: 0 <= i < |s.books| && s.books[i].id != id ==> s.books[i] in r.value.books)
      && |r.value.books| == |s.books| - CountBooks(s.books, id)
      && IsSubsequence(r.value.loans, s.loans)
      && (forall i :: 0 <= i < |r.value.loans| ==> r.value.loans[i].bookId != id)
      && (forall i :: 0 <= i < |s.loans| && s.loans[i].bookId != id ==> s.loans[i] in r.value.loans)
      && |r.value.loans| == |s.loans| - CountLoans(s.loans, id)
  {
    if Delete(s, id).Ok? {
      assert Delete(s, id).value == State(BooksNotWithId(s.books, id), LoansNotOf(s.loans, id));
      FilterIsSubsequence(s.books, (b: Book) => b.id != id);
      FilterIsSubsequence(s.loans, (l: Loan) => l.bookId != id);
      BooksNotWithIdLength(s.books, id);
      LoansNotOfLength(s.loans, id);
    }
  }

  /** Delete as written changes nothing for any input, so a catalog whose
      only book is available keeps it, while the intended handler empties it. */
  lemma DeleteAsWrittenNeverDeletes(s: State, id: int)
    ensures Commit(s, DeleteAsWritten(s, id)) == s
    ensures var one := State([Book(1, "1984", "Orwell", Text("1949"), true)], []);
      Commit(one, DeleteAsWritten(one, 1)) == one && Commit(one, Delete(one, 1)) == Empty
  {
    var one := State([Book(1, "1984", "Orwell", Text("1949"), true)], []);
    assert BooksNotWithId(one.books, 1) == [];
    assert LoansNotOf(one.loans, 1) == [];
  }
}
