/** The title/author filter of the books table (`update_table` and the
    search button's handler). */
module BookSearch {
  import opened Records
  import opened Sequences

  /** The hint text the search entry shows while empty. */
  const Placeholder := "Search by title or author..."

  /** `str.lower()` on one character, for ASCII letters. */
  function Lower(c: char): char {
    if 'A' <= c <= 'Z' then (c as int + 32) as char else c
  }

  function LowerStr(s: string): (r: string)
    ensures |r| == |s| && forall i :: 0 <= i < |s| ==> r[i] == Lower(s[i])
  {
    if s == [] then [] else [Lower(s[0])] + LowerStr(s[1..])
  }

  /** Python's substring test `needle in hay`. */
  predicate Contains(hay: string, needle: string) {
    needle <= hay || (hay != [] && Contains(hay[1..], needle))
  }

  /** The row test of `update_table`. */
  predicate Matches(b: Book, term: string) {
    || term == ""
    || Contains(LowerStr(b.title), LowerStr(term))
    || Contains(LowerStr(b.author), LowerStr(term))
  }

  /** The search button reads the placeholder as "no term". */
  function EffectiveTerm(entry: string): string {
    if entry == Placeholder then "" else entry
  }

  /** The books the table shows for what is typed in the search entry. */
  function Search(books: seq<Book>, entry: string): seq<Book> {
    Filter(books, b => Matches(b, EffectiveTerm(entry)))
  }

  /** The number of books that match `term`. */
  function MatchCount(books: seq<Book>, term: string): nat {
    if books == [] then 0
    else (if Matches(books[0], term) then 1 else 0) + MatchCount(books[1..], term)
  }

  lemma {:induction false} SearchLength(books: seq<Book>, entry: string)
    ensures |Search(books, entry)| == MatchCount(books, EffectiveTerm(entry))
  {
    if books != [] {
      SearchLength(books[1..], entry);
    }
  }

  /** The table lists exactly the matching books, in catalog order: a
      subsequence of the catalog, made of matching books only, as long as
      the number of matching books (so a book listed twice in the catalog
      is listed twice). */
  lemma SearchIsExactFilter(books: seq<Book>, entry: string)
    ensures var r := Search(books, entry);
      && IsSubsequence(r, books)
      && (forall i :: 0 <= i < |r| ==> Matches(r[i], EffectiveTerm(entry)))
      && (forall i :: 0 <= i < |books| && Matches(books[i], EffectiveTerm(entry)) ==> books[i] in r)
      && |r| == MatchCount(books, EffectiveTerm(entry))
  {
    FilterIsSubsequence(books, b => Matches(b, EffectiveTerm(entry)));
    SearchLength(books, entry);
  }

  /** An empty entry, or one still showing the placeholder, lists every book. */
  lemma EmptyTermListsAll(books: seq<Book>, entry: string)
    requires entry == "" || entry == Placeholder
    ensures Search(books, entry) == books
  {
    FilterKeepsAll(books, b => Matches(b, EffectiveTerm(entry)));
  }

  /** The search ignores ASCII case: a lower-case term finds a capitalised author. */
  lemma FindsAuthorIgnoringCase()
    ensures var b := Book(1, "1984", "Orwell", Text("1949"), true);
      Search([b], "orwell") == [b]
  {
    var b := Book(1, "1984", "Orwell", Text("1949"), true);
    assert LowerStr("Orwell") == "orwell";
    assert LowerStr("orwell") == "orwell";
    assert Matches(b, "orwell");
  }
}
