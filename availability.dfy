/** The catalog invariant: book ids are distinct, a book is on loan exactly
    when one loan row carries its id (and an available book has none), and
    every loan row names a book of the catalog. */
module Availability {
  import opened Records
  import opened Sequences
  import opened Transitions

  predicate UniqueIds(books: seq<Book>) {
    forall i, j :: 0 <= i < j < |books| ==> books[i].id != books[j].id
  }

  predicate HasId(books: seq<Book>, id: int) {
    exists i :: 0 <= i < |books| && books[i].id == id
  }

  predicate Valid(s: State) {
    && UniqueIds(s.books)
    && (forall i :: 0 <= i < |s.books| ==>
          CountLoans(s.loans, s.books[i].id) == if s.books[i].available then 0 else 1)
    && (forall i :: 0 <= i < |s.loans| ==> HasId(s.books, s.loans[i].bookId))
  }

  /** The ids are exactly 1..n, in order: what a catalog built by adds alone looks like. */
  predicate DenseIds(books: seq<Book>) {
    forall i :: 0 <= i < |books| ==> books[i].id == i + 1
  }

  // ---- counting loans ----

  lemma {:induction false} CountAppend(loans: seq<Loan>, l: Loan, id: int)
    ensures CountLoans(loans + [l], id) == CountLoans(loans, id) + (if l.bookId == id then 1 else 0)
  {
    if loans != [] {
      assert (loans + [l])[1..] == loans[1..] + [l];
      CountAppend(loans[1..], l, id);
    }
  }

  lemma {:induction false} CountZeroMeansNone(loans: seq<Loan>, id: int)
    ensures CountLoans(loans, id) == 0 <==> forall i :: 0 <= i < |loans| ==> loans[i].bookId != id
  {
    if loans != [] {
      CountZeroMeansNone(loans[1..], id);
      assert forall i :: 1 <= i < |loans| ==> loans[i] == loans[1..][i - 1];
    }
  }

  lemma {:induction false} CountAfterDrop(loans: seq<Loan>, id: int, other: int)
    ensures CountLoans(LoansNotOf(loans, id), other) == if other == id then 0 else CountLoans(loans, other)
  {
    if loans != [] {
      CountAfterDrop(loans[1..], id, other);
      if loans[0].bookId != id {
        assert LoansNotOf(loans, id) == [loans[0]] + LoansNotOf(loans[1..], id);
        assert ([loans[0]] + LoansNotOf(loans[1..], id))[1..] == LoansNotOf(loans[1..], id);
      }
    }
  }

  /** Dropping the loans of a book that has none changes nothing. */
  lemma DropWithoutLoans(loans: seq<Loan>, id: int)
    requires CountLoans(loans, id) == 0
    ensures LoansNotOf(loans, id) == loans
  {
    CountZeroMeansNone(loans, id);
    FilterKeepsAll(loans, (l: Loan) => l.bookId != id);
  }

  lemma {:induction false} NoBookNoLoans(s: State, id: int)
    requires Valid(s) && !HasId(s.books, id)
    ensures CountLoans(s.loans, id) == 0
  {
    CountZeroMeansNone(s.loans, id);
  }

  /** Replacing one book by a record with the same id keeps the set of ids. */
  lemma SameIdsAfterUpdate(books: seq<Book>, k: nat, b: Book, id: int)
    requires k < |books| && b.id == books[k].id
    ensures HasId(books[k := b], id) <==> HasId(books, id)
  {
    if HasId(books, id) {
      var i :| 0 <= i < |books| && books[i].id == id;
      assert books[k := b][i].id == id;
    }
  }

  // ---- adding ----

  /** While the ids are exactly 1..n, the id `add_book` hands out is new
      and the ids stay exactly 1..n+1. */
  lemma AddKeepsIdsDense(s: State, title: string, author: string, year: string)
    requires DenseIds(s.books)
    ensures !HasId(s.books, NextId(s.books))
    ensures DenseIds(Commit(s, Add(s, title, author, year)).books)
  {
  }

  /** With a new id, add keeps the invariant. */
  lemma {:induction false} AddPreservesValid(s: State, title: string, author: string, year: string)
    requires Valid(s) && !HasId(s.books, NextId(s.books))
    ensures Valid(Commit(s, Add(s, title, author, year)))
  {
    var s' := Commit(s, Add(s, title, author, year));
    if Add(s, title, author, year).Ok? {
      NoBookNoLoans(s, NextId(s.books));
      forall i | 0 <= i < |s'.loans|
        ensures HasId(s'.books, s'.loans[i].bookId)
      {
        var j :| 0 <= j < |s.books| && s.books[j].id == s.loans[i].bookId;
        assert s'.books[j] == s.books[j];
      }
    }
  }

  /** Ids come from the count of books, so after a delete the next add can
      reuse an id that is still in the catalog. */
  lemma AddAfterDeleteReusesId()
    ensures var s := State([Book(1, "A", "X", Text("2001"), true), Book(2, "B", "Y", Text("2002"), true)], []);
      var s' := Commit(s, Delete(s, 1));
      var s'' := Commit(s', Add(s', "C", "Z", "2003"));
      Valid(s) && Valid(s') && s''.books[0].id == s''.books[1].id == 2 && !Valid(s'')
  {
    var s := State([Book(1, "A", "X", Text("2001"), true), Book(2, "B", "Y", Text("2002"), true)], []);
    assert BooksNotWithId(s.books, 1) == [s.books[1]];
    assert LoansNotOf(s.loans, 1) == [];
  }

  // ---- borrowing and returning ----

  lemma {:induction false} BorrowPreservesValid(s: State, id: int, student: string, now: int)
    requires Valid(s)
    ensures Valid(Commit(s, Borrow(s, id, student, now)))
  {
    var r := Borrow(s, id, student, now);
    if r.Ok? {
      var k := FirstTarget(s.books, id, true).value;
      var l := NewLoan(s.books[k], id, student, now);
      var s' := r.value;
      assert s'.loans == s.loans + [l];
      forall i | 0 <= i < |s'.books|
        ensures CountLoans(s'.loans, s'.books[i].id) == if s'.books[i].available then 0 else 1
      {
        CountAppend(s.loans, l, s'.books[i].id);
      }
      forall i | 0 <= i < |s'.loans|
        ensures HasId(s'.books, s'.loans[i].bookId)
      {
        SameIdsAfterUpdate(s.books, k, s'.books[k], s'.loans[i].bookId);
        if i == |s.loans| {
          assert s.books[k].id == s'.loans[i].bookId;
        }
      }
    }
  }

  lemma {:induction false} ReturnPreservesValid(s: State, id: int)
    requires Valid(s)
    ensures Valid(Commit(s, Return(s, id)))
  {
    var r := Return(s, id);
    if r.Ok? {
      var k := FirstTarget(s.books, id, false).value;
      var s' := r.value;
      forall i | 0 <= i < |s'.books|
        ensures CountLoans(s'.loans, s'.books[i].id) == if s'.books[i].available then 0 else 1
      {
        CountAfterDrop(s.loans, id, s'.books[i].id);
      }
      forall i | 0 <= i < |s'.loans|
        ensures HasId(s'.books, s'.loans[i].bookId)
      {
        SameIdsAfterUpdate(s.books, k, s'.books[k], s'.loans[i].bookId);
      }
    }
  }

  /** With the invariant, borrowing a book and then returning it restores
      both lists exactly. */
  lemma {:induction false} BorrowThenReturnRestores(s: State, id: int, student: string, now: int)
    requires Valid(s) && Borrow(s, id, student, now).Ok?
    ensures Return(Borrow(s, id, student, now).value, id) == Ok(s)
  {
    var k := FirstTarget(s.books, id, true).value;
    var l := NewLoan(s.books[k], id, student, now);
    var s' := Borrow(s, id, student, now).value;
    assert IsTarget(s'.books[k], id, false);
    assert FirstTarget(s'.books, id, false) == Some(k);
    assert s'.books[k := s'.books[k].(available := true)] == s.books;
    assert s'.loans == s.loans + [l];
    FilterAppend(s.loans, [l], (l: Loan) => l.bookId != id);
    assert CountLoans(s.loans, s.books[k].id) == 0;
    DropWithoutLoans(s.loans, id);
    assert LoansNotOf([l], id) == [];
    assert LoansNotOf(s'.loans, id) == s.loans;
  }

  // ---- editing and deleting ----

  lemma EditPreservesValid(s: State, id: int, title: string, author: string, yearText: string)
    requires Valid(s)
    ensures Valid(Commit(s, Edit(s, id, title, author, yearText)))
  {
    var r := Edit(s, id, title, author, yearText);
    if r.Ok? {
      var k := FirstWithId(s.books, id).value;
      forall i | 0 <= i < |r.value.loans|
        ensures HasId(r.value.books, r.value.loans[i].bookId)
      {
        SameIdsAfterUpdate(s.books, k, r.value.books[k], r.value.loans[i].bookId);
      }
    }
  }

  /** Putting a book whose id no other book has in front keeps ids distinct. */
  lemma PrependKeepsIdsUnique(b: Book, rest: seq<Book>)
    requires UniqueIds(rest)
    requires forall i :: 0 <= i < |rest| ==> rest[i].id != b.id
    ensures UniqueIds([b] + rest)
  {
    var r := [b] + rest;
    forall i, j | 0 <= i < j < |r|
      ensures r[i].id != r[j].id
    {
      assert r[j] == rest[j - 1];
      if i > 0 {
        assert r[i] == rest[i - 1];
      }
    }
  }

  /** No book after the first shares its id. */
  lemma HeadIdIsUnique(books: seq<Book>)
    requires UniqueIds(books) && books != []
    ensures forall b :: b in books[1..] ==> b.id != books[0].id
    ensures UniqueIds(books[1..])
  {
    forall b | b in books[1..]
      ensures b.id != books[0].id
    {
      var m :| 0 <= m < |books[1..]| && books[1..][m] == b;
      assert books[m + 1] == b;
    }
  }

  lemma {:induction false} FilterKeepsIdsUnique(books: seq<Book>, id: int)
    requires UniqueIds(books)
    ensures UniqueIds(BooksNotWithId(books, id))
  {
    if books != [] {
      HeadIdIsUnique(books);
      FilterKeepsIdsUnique(books[1..], id);
      var rest := BooksNotWithId(books[1..], id);
      if books[0].id != id {
        assert BooksNotWithId(books, id) == [books[0]] + rest;
        PrependKeepsIdsUnique(books[0], rest);
      }
    }
  }

  /** Dropping the books and loans of one id leaves every other book's
      loan count as it was. */
  lemma DeleteKeepsCounts(books: seq<Book>, loans: seq<Loan>, id: int)
    requires forall i :: 0 <= i < |books| ==>
      CountLoans(loans, books[i].id) == if books[i].available then 0 else 1
    ensures var kept := BooksNotWithId(books, id);
      forall i :: 0 <= i < |kept| ==>
        CountLoans(LoansNotOf(loans, id), kept[i].id) == if kept[i].available then 0 else 1
  {
    var kept := BooksNotWithId(books, id);
    forall i | 0 <= i < |kept|
      ensures CountLoans(LoansNotOf(loans, id), kept[i].id) == if kept[i].available then 0 else 1
    {
      CountAfterDrop(loans, id, kept[i].id);
      var j :| 0 <= j < |books| && books[j] == kept[i];
    }
  }

  /** The loans that survive a delete still name surviving books. */
  lemma DeleteKeepsLoanBooks(books: seq<Book>, loans: seq<Loan>, id: int)
    requires forall i :: 0 <= i < |loans| ==> HasId(books, loans[i].bookId)
    ensures var kept := BooksNotWithId(books, id); var left := LoansNotOf(loans, id);
      forall i :: 0 <= i < |left| ==> HasId(kept, left[i].bookId)
  {
    var kept := BooksNotWithId(books, id);
    var left := LoansNotOf(loans, id);
    forall i | 0 <= i < |left|
      ensures HasId(kept, left[i].bookId)
    {
      var m :| 0 <= m < |loans| && loans[m] == left[i];
      var j :| 0 <= j < |books| && books[j].id == loans[m].bookId;
      var q :| 0 <= q < |kept| && kept[q] == books[j];
    }
  }

  lemma DeletePreservesValid(s: State, id: int)
    requires Valid(s)
    ensures Valid(Commit(s, Delete(s, id)))
  {
    if Delete(s, id).Ok? {
      assert Delete(s, id).value == State(BooksNotWithId(s.books, id), LoansNotOf(s.loans, id));
      FilterKeepsIdsUnique(s.books, id);
      DeleteKeepsCounts(s.books, s.loans, id);
      DeleteKeepsLoanBooks(s.books, s.loans, id);
    }
  }

  /** With distinct ids, delete is refused exactly when the book with the
      id is on loan. */
  lemma DeleteRefusedUnderInvariant(s: State, id: int)
    requires UniqueIds(s.books)
    ensures Delete(s, id).Err? <==>
      exists k :: 0 <= k < |s.books| && s.books[k].id == id && !s.books[k].available
  {
    if k :| 0 <= k < |s.books| && s.books[k].id == id && !s.books[k].available {
      assert FirstWithId(s.books, id) == Some(k);
    }
  }

  // ---- sequences of handler calls ----

  /** One user action, with its inputs already read from the form. */
  datatype Op =
    | AddOp(title: string, author: string, year: string)
    | BorrowOp(id: int, student: string, now: int)
    | ReturnOp(id: int)
    | EditOp(id: int, title: string, author: string, yearText: string)
    | DeleteOp(id: int)

  function Step(s: State, op: Op): State {
    match op
    case AddOp(t, a, y) => Commit(s, Add(s, t, a, y))
    case BorrowOp(id, st, now) => Commit(s, Borrow(s, id, st, now))
    case ReturnOp(id) => Commit(s, Return(s, id))
    case EditOp(id, t, a, y) => Commit(s, Edit(s, id, t, a, y))
    case DeleteOp(id) => Commit(s, Delete(s, id))
  }

  function Run(s: State, ops: seq<Op>): State
    decreases |ops|
  {
    if ops == [] then s else Run(Step(s, ops[0]), ops[1..])
  }

  /** Every add along the run hands out an id not already in the catalog. */
  predicate FreshAdds(s: State, ops: seq<Op>)
    decreases |ops|
  {
    ops == [] ||
    ((ops[0].AddOp? ==> !HasId(s.books, NextId(s.books))) && FreshAdds(Step(s, ops[0]), ops[1..]))
  }

  lemma StepPreservesValid(s: State, op: Op)
    requires Valid(s)
    requires op.AddOp? ==> !HasId(s.books, NextId(s.books))
    ensures Valid(Step(s, op))
  {
    match op
    case AddOp(t, a, y) => AddPreservesValid(s, t, a, y);
    case BorrowOp(id, st, now) => BorrowPreservesValid(s, id, st, now);
    case ReturnOp(id) => ReturnPreservesValid(s, id);
    case EditOp(id, t, a, y) => EditPreservesValid(s, id, t, a, y);
    case DeleteOp(id) => DeletePreservesValid(s, id);
  }

  /** The invariant holds after any run in which every add finds its id free. */
  lemma {:induction false} RunPreservesValid(s: State, ops: seq<Op>)
    requires Valid(s) && FreshAdds(s, ops)
    ensures Valid(Run(s, ops))
    decreases |ops|
  {
    if ops != [] {
      StepPreservesValid(s, ops[0]);
      RunPreservesValid(Step(s, ops[0]), ops[1..]);
    }
  }

  /** Every action but delete keeps the ids exactly 1..n. */
  lemma StepKeepsIdsDense(s: State, op: Op)
    requires DenseIds(s.books) && !op.DeleteOp?
    ensures DenseIds(Step(s, op).books)
  {
  }

  /** Without deletes, every add finds its id free. */
  lemma {:induction false} DeleteFreeRunAddsFreshly(s: State, ops: seq<Op>)
    requires DenseIds(s.books)
    requires forall i :: 0 <= i < |ops| ==> !ops[i].DeleteOp?
    ensures FreshAdds(s, ops)
    decreases |ops|
  {
    if ops != [] {
      AddKeepsIdsDense(s, "", "", "");
      StepKeepsIdsDense(s, ops[0]);
      DeleteFreeRunAddsFreshly(Step(s, ops[0]), ops[1..]);
    }
  }

  /** From an empty catalog, any run without a delete keeps the invariant. */
  lemma DeleteFreeRunFromEmptyIsValid(ops: seq<Op>)
    requires forall i :: 0 <= i < |ops| ==> !ops[i].DeleteOp?
    ensures Valid(Run(Empty, ops))
  {
    DeleteFreeRunAddsFreshly(Empty, ops);
    RunPreservesValid(Empty, ops);
  }
}
