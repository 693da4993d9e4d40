# Library catalog model

A Dafny model of the book and loan catalog behind the Library Management System's tkinter window (`library_gui.py`). The program keeps two module-level lists: `books` holds dictionaries with an id, title, author, publication year and an `available` flag, and `borrowed_books` holds one row per loan. Its event handlers change these lists: add, borrow and edit update them in place, while return and delete replace a list with a filtered copy. This model holds them as the two fields of a `Catalog` object. Each handler becomes a method that takes the form's inputs already read: the book id as an integer and the clock as seconds.

Modules:

- `Records`: books, loans, the catalog state, and the error each handler's dialog reports.
- `Sequences`: the list comprehension `[x for x in xs if keep(x)]` as `Filter`, with order and membership lemmas.
- `YearInput`: `validate_year_input`, the edit dialog's year test, and a model of Python's `int()` on ASCII text.
- `BookSearch`: the case-insensitive title/author filter of the books table.
- `DueDates`: due dates, the overdue table, and the "Overdue"/"On Time" column of the borrowed-books table.
- `Transitions`: what add, borrow, return, edit and delete do, as functions of the state before. `TransitionFacts` states what each one changes and what it leaves alone.
- `Availability`: the catalog invariant. Borrow, return, edit and delete keep it unconditionally. Add keeps it only when the id `len(books) + 1` is not already in use, which holds while the ids are exactly 1..n but can fail after a delete (`Availability.AddAfterDeleteReusesId`). Whole runs of handlers keep it when every add in the run finds its id unused, and in particular every delete-free run from an empty catalog keeps it. The invariant says book ids are distinct, a book is on loan exactly when one loan row names its id (an available book has none), and every loan row names a book in the catalog.
- `Library`: the `Catalog` class. Its methods run the handlers' loops and updates. Each is proved to reach the state the matching `Transitions` function gives. Each keeps the invariant, except that `AddBook` keeps it only when the new id is unused.

Behaviour kept as the code has it:

- A new book's id is `len(books) + 1`, not one more than the largest id. While the ids are exactly 1..n this id is new. After a delete it can repeat an id still in use (`Availability.AddAfterDeleteReusesId`). Borrow, return, edit and delete then act on the first book with that id.
- `add_book` checks only that the three fields are non-empty. The year is stored as typed (text). The edit dialog stores it as an integer.
- The edit dialog parses the year with `int()` and accepts 1000 to 9999. Unlike the keystroke validator, it does not check the current year or the length, so it accepts `+1999`.
- `delete_selected`, as intended, refuses only when the first book with the id is on loan. It removes every book with the id and also every loan row of that id. For an id no book has, it reports success.
- A loan is overdue once the current time passes midnight at the start of its due date. On the due date itself it is therefore listed as overdue by 0 days.

## Model

| member | source | states |
|---|---|---|
| `YearInput.ParseInt` | library_gui.py:155 | definition, no contract: Python's `int()` on ASCII text (whitespace stripped, optional sign, digits with single underscores between them, at most 4300 digits) |
| `YearInput.ValidateYearInput` | library_gui.py:150-159 | definition, no contract: `validate_year_input` with the current year passed in |
| `BookSearch.Matches` | library_gui.py:257-259 | definition, no contract: the row test, an empty term or the lower-cased term inside the lower-cased title or author |
| `BookSearch.EffectiveTerm` | library_gui.py:265-269 | definition, no contract: the placeholder text counts as an empty term |
| `BookSearch.Search` | library_gui.py:256-259 | definition, no contract: the books the table shows for an entry |
| `DueDates.IsOverdue` | library_gui.py:522 | definition, no contract: now is past midnight at the start of the due date |
| `DueDates.DaysOverdue` | library_gui.py:523 | definition, no contract: whole days since that midnight |
| `DueDates.StatusOf` | library_gui.py:555 | definition, no contract: Overdue or On Time by the same test |
| `Transitions.Add` | library_gui.py:378-393 | definition, no contract: `add_book` |
| `Transitions.NewLoan` | library_gui.py:432-441 | definition, no contract: the loan row borrow appends |
| `Transitions.Borrow` | library_gui.py:425-452 | definition, no contract: `borrow_book` |
| `Transitions.Return` | library_gui.py:480-490 | definition, no contract: `return_book` |
| `Transitions.Edit` | library_gui.py:659-674 | definition, no contract: the edit dialog's `save_changes` on the first book with the id |
| `Transitions.Delete` | library_gui.py:313-322 | definition, no contract: `delete_selected` as intended |
| `Transitions.DeleteAsWritten` | library_gui.py:313-322 | definition, no contract: `delete_selected` as written, which fails before changing anything |
| `YearInput.AcceptsEmpty` | library_gui.py:152-153 | the empty year field is always accepted |
| `YearInput.NonEmptyYearIsFourDigits` | library_gui.py:150-159 | a non-empty value is accepted if and only if it is exactly four ASCII digits spelling a year from 1000 to the current year; a sign, whitespace or underscore would need a fifth character |
| `YearInput.RejectsNonNumeric` | library_gui.py:154-159 | text that `int()` cannot read is refused unless it is empty |
| `YearInput.ParseIntOfDigits` | library_gui.py:155 | `int()` reads a string of at most 4300 digits as the number it spells |
| `YearInput.EditYear` | library_gui.py:663-669 | definition, no contract: the edit dialog's year test, `int()` of the text within 1000..9999 |
| `YearInput.EditYearExamples` | library_gui.py:663-669 | the edit dialog accepts " 1999" and "1_999" as 1999 and refuses "999", "10000", "19a9", a year preceded by the file separator character 0x1C, which `int()` does not strip, and a year padded with leading zeros to 4301 digits, past the digit limit of `int()` |
| `YearInput.ValidatedYearPassesEdit` | library_gui.py:663-666 | every non-empty year the keystroke validator accepts also passes the edit dialog's test, with the same value, while the current year is at most 9999 |
| `YearInput.EditTakesSignedYear` | library_gui.py:664-665 | the edit dialog accepts `+1999` as 1999, which the keystroke validator refuses |
| `BookSearch.SearchIsExactFilter` | library_gui.py:257-259 | the table shows a subsequence of the books in catalog order, made of matching books only (title or author contains the term, ignoring case), as many as the catalog holds matching books, so every matching book appears as often as in the catalog |
| `BookSearch.EmptyTermListsAll` | library_gui.py:265-269 | an empty entry, or one still showing the placeholder text, lists every book |
| `BookSearch.FindsAuthorIgnoringCase` | library_gui.py:258-259 | searching "orwell" finds the book by "Orwell" |
| `DueDates.OverdueRows` | library_gui.py:519-525 | the overdue table lists exactly the loans whose due midnight has passed, each with its day count |
| `DueDates.BorrowedRows` | library_gui.py:552-565 | the borrowed table has one row per loan, in order, marked Overdue exactly when its due midnight has passed |
| `DueDates.OverdueViewAgreesWithStatus` | library_gui.py:519-555 | the overdue table lists the same loans, in the same order, as those the borrowed table marks Overdue |
| `DueDates.DaysOverdueMeaning` | library_gui.py:521-523 | the day count of an overdue loan is non-negative and is the number of whole days since its due midnight |
| `DueDates.OverdueOnDueDate` | library_gui.py:521-523 | from the first second of its due date a loan is Overdue by 0 days |
| `DueDates.TenDaysOverdue` | library_gui.py:523 | a loan due ten dates before today is overdue by 10 days |
| `DueDates.DueDayIsTwoWeeksLater` | library_gui.py:432-440 | the stored due date is the stored borrow date plus 14 days |
| `DueDates.NewLoanOnTime` | library_gui.py:433 | a new loan shows "On Time" until its due date begins |
| `Transitions.FirstWithId` | library_gui.py:313 | the lookup finds the first book with the id, or reports that none has it |
| `Transitions.FirstTarget` | library_gui.py:429-430 | the borrow and return loops stop at the first book with the id and the wanted availability, or find none |
| `TransitionFacts.AddAppendsOneBook` | library_gui.py:378-393 | add is refused unless all three fields are filled; otherwise exactly one available book is appended, with id count+1 and the year as typed; existing books and loans are unchanged |
| `TransitionFacts.BorrowMarksFirstAvailable` | library_gui.py:425-452 | borrow is refused with the missing-name error for an empty name, and with the not-available error when no available book has the id; otherwise only the first such book becomes unavailable, and one loan is appended with its title, due 14 days after the borrow date |
| `TransitionFacts.ReturnFreesFirstBorrowed` | library_gui.py:480-490 | return is refused when no borrowed book has the id; otherwise only the first such book becomes available, and exactly the loans of that id are dropped: the rest stay in order, and the loan list shrinks by the number of rows naming the id |
| `TransitionFacts.EditChangesOnlyThreeFields` | library_gui.py:659-674 | edit succeeds if and only if the book exists, the fields are filled and the year is in 1000..9999; then only that book's title, author and year (now a number) change |
| `TransitionFacts.DeleteRefusedWhileOnLoan` | library_gui.py:313-317 | delete is refused, changing nothing, exactly when the first book with the id is on loan |
| `TransitionFacts.DeleteRemovesAllWithId` | library_gui.py:319-322 | a delete that goes ahead removes every book and every loan of the id and keeps the others in their order; each list shrinks by exactly the number of entries carrying the id |
| `TransitionFacts.DeleteAsWrittenNeverDeletes` | library_gui.py:313-322 | the handler as written changes nothing for any input, where the intended one empties a one-book catalog |
| `Availability.AddKeepsIdsDense` | library_gui.py:380 | while ids are exactly 1..n, the new id is not in use and ids stay exactly 1..n+1 |
| `Availability.AddPreservesValid` | library_gui.py:378-386 | when the new id is not in use, add keeps the catalog invariant |
| `Availability.AddAfterDeleteReusesId` | library_gui.py:380 | deleting book 1 of two and adding a book gives two books with id 2, breaking the invariant |
| `Availability.BorrowPreservesValid` | library_gui.py:429-443 | borrow keeps the catalog invariant |
| `Availability.ReturnPreservesValid` | library_gui.py:480-484 | return keeps the catalog invariant |
| `Availability.BorrowThenReturnRestores` | library_gui.py:429-484 | under the invariant, a borrow followed by a return of the same id restores both lists exactly |
| `Availability.EditPreservesValid` | library_gui.py:672-674 | edit keeps the catalog invariant |
| `Availability.DeleteRefusedUnderInvariant` | library_gui.py:313-317 | with distinct ids, delete is refused exactly when the book with the id is on loan |
| `Availability.DeletePreservesValid` | library_gui.py:319-322 | the intended delete keeps the catalog invariant |
| `Availability.RunPreservesValid` | library_gui.py:21-22 | after any run of actions in which every add finds its id unused, the invariant still holds |
| `Availability.DeleteFreeRunFromEmptyIsValid` | library_gui.py:380 | starting from an empty catalog, any run without a delete keeps the invariant |
| `Library.Catalog.constructor` | library_gui.py:161-170 | the catalog starts from the lists as loaded |
| `Library.Catalog.AddBook` | library_gui.py:373-393 | reaches the state and outcome of `Add`; keeps the invariant when the new id is unused |
| `Library.Catalog.BorrowBook` | library_gui.py:420-454 | the loop reaches the state and outcome of `Borrow` and keeps the invariant |
| `Library.Catalog.ReturnBook` | library_gui.py:476-492 | the loop reaches the state and outcome of `Return` and keeps the invariant |
| `Library.Catalog.EditBook` | library_gui.py:657-684 | reaches the state and outcome of `Edit` and keeps the invariant |
| `Library.WalkthroughBorrow` | library_gui.py:373-454 | from an empty catalog, adding "1984" and borrowing it leaves one borrowed book and one loan due 14 days after the borrow date, and deleting it is refused as on loan |
| `Library.WalkthroughReturn` | library_gui.py:476-492 | after that, returning the book and then deleting it leaves both lists empty |
| `Library.Catalog.DeleteBook` | library_gui.py:299-329 | reaches the state and outcome of the intended `Delete` and keeps the invariant |

## Left out

- The tkinter window: widgets, styles, the Treeview rows and the message boxes. Each dialog becomes an `Outcome`.
- Selecting a row and the confirmation prompt before a delete. The methods take the id, and the user is taken to have confirmed.
- `load_data` and `save_data`, which read and write the JSON files. The constructor takes the lists as loaded. Saving after each change is not modelled, so a failed save (which keeps the change in memory) is not either.
- `export_to_csv` and the report export of the borrowed-books view: file dialogs, CSV quoting and the report's text layout.
- Reading the book id with `int()` in the borrow and return forms. The id is given as an integer, so the "valid book ID" error is not modelled.
- `YearInput.ParseInt`: Python's `int()` is modelled for ASCII text only (the whitespace `int()` strips from ASCII text, namely space, tab, line feed, vertical tab, form feed and carriage return; a sign; digits and single underscores). Non-ASCII digits and whitespace are not modelled.
- `YearInput.MaxStrDigits`: the digit limit of `int()` is the default 4300 of Python 3.11 and later. Changing it with `sys.set_int_max_str_digits` or `PYTHONINTMAXSTRDIGITS` is not modelled, and neither are older interpreters without the limit.
- `BookSearch.Lower`: `str.lower()` is modelled for ASCII letters only.
- The keystroke semantics of `validatecommand` (which edits are blocked while typing). Only the predicate is modelled. Because of this, `add_book` is modelled with no year check of its own.
- `datetime.now()`, `strftime` and `strptime`. The clock is integer seconds of naive local time, and a date is its day number. Microseconds are not modelled.

## Findings

| source | as written | input that shows it | evidently intended | confidence | as-written member | corrected member |
|---|---|---|---|---|---|---|
| library_gui.py:313-322 | `delete_selected` assigns `books` and `borrowed_books` without a `global` declaration, so Python treats both as local names; the lookup at line 313 reads the local `books` before assignment and raises UnboundLocalError, so nothing is deleted or saved | any confirmed delete, e.g. a catalog holding one available book with id 1 | remove every book with the id and its loan rows, and refuse when the book is on loan | high; not executed | `Transitions.DeleteAsWritten`, shown by `TransitionFacts.DeleteAsWrittenNeverDeletes` | `Transitions.Delete`, proved by `TransitionFacts.DeleteRefusedWhileOnLoan`, `TransitionFacts.DeleteRemovesAllWithId` and `Availability.DeletePreservesValid`, used by `Library.Catalog.DeleteBook` |
