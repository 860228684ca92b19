/** `LibraryInventory` (Assignment-3/library_manager.py): the catalogue as an
    ordered list of book objects, with duplicate-free insertion, lookup by ISBN
    and case-insensitive title search. */
module Inventory {
  import opened Text
  import opened Books

  /** Some book in `bs` has this ISBN. */
  predicate HasIsbn(bs: seq<Book>, isbn: string)
  {
    exists i :: 0 <= i < |bs| && bs[i].isbn == isbn
  }

  /** `i` is the lowest index of a book with this ISBN. */
  predicate IsFirstMatch(bs: seq<Book>, isbn: string, i: int)
  {
    0 <= i < |bs| && bs[i].isbn == isbn &&
    forall j :: 0 <= j < i ==> bs[j].isbn != isbn
  }

  /** No two entries share an ISBN. */
  predicate UniqueIsbns(bs: seq<Book>)
  {
    forall i, j :: 0 <= i < j < |bs| ==> bs[i].isbn != bs[j].isbn
  }

  /** Appending a book whose ISBN is new keeps the ISBNs unique. */
  lemma AppendKeepsUnique(bs: seq<Book>, b: Book)
    requires UniqueIsbns(bs) && !HasIsbn(bs, b.isbn)
    ensures UniqueIsbns(bs + [b])
  {
    var cs := bs + [b];
    forall i, j | 0 <= i < j < |cs| ensures cs[i].isbn != cs[j].isbn {
      if j == |bs| {
        assert cs[i] == bs[i];
      }
    }
  }

  /** With unique ISBNs a book with the queried ISBN is the first match, so the
      lookup finds that very book. */
  lemma UniqueMatchIsFirst(bs: seq<Book>, isbn: string, k: int)
    requires UniqueIsbns(bs)
    requires 0 <= k < |bs| && bs[k].isbn == isbn
    ensures IsFirstMatch(bs, isbn, k)
  {
  }

  /** After a successful `add_book` the lookup by the new ISBN finds the book
      just appended, at the end of the catalogue. */
  lemma AddedBookIsFound(bs: seq<Book>, b: Book)
    requires !HasIsbn(bs, b.isbn)
    ensures IsFirstMatch(bs + [b], b.isbn, |bs|)
  {
    var cs := bs + [b];
    forall j | 0 <= j < |bs| ensures cs[j].isbn != b.isbn {
      assert cs[j] == bs[j];
    }
  }

  /** The test of the title search: the keyword, already lower-cased, occurs in
      the lower-cased title. */
  predicate TitleHas(b: Book, lowered: string)
  {
    Contains(Lower(b.title), lowered)
  }

  /** `[b for b in bs if lowered in b.title.lower()]`. */
  function FilterByTitle(bs: seq<Book>, lowered: string): (r: seq<Book>)
    ensures |r| <= |bs|
    ensures forall i :: 0 <= i < |r| ==> r[i] in bs && TitleHas(r[i], lowered)
    ensures forall i :: 0 <= i < |bs| && TitleHas(bs[i], lowered) ==> bs[i] in r
    decreases |bs|
  {
    if bs == [] then []
    else (if TitleHas(bs[0], lowered) then [bs[0]] else []) + FilterByTitle(bs[1..], lowered)
  }

  /** The filter works entry by entry in catalogue order: filtering a
      concatenation concatenates the filtered parts. */
  lemma {:induction false} FilterAppend(a: seq<Book>, b: seq<Book>, lowered: string)
    ensures FilterByTitle(a + b, lowered) == FilterByTitle(a, lowered) + FilterByTitle(b, lowered)
    decreases |a|
  {
    if a == [] {
      assert a + b == b;
    } else {
      assert (a + b)[1..] == a[1..] + b;
      FilterAppend(a[1..], b, lowered);
    }
  }

  /** An empty keyword matches every title, so every book is returned in order. */
  lemma {:induction false} FilterEmptyKeepsAll(bs: seq<Book>)
    ensures FilterByTitle(bs, []) == bs
    decreases |bs|
  {
    if bs != [] {
      ContainsEmpty(Lower(bs[0].title));
      FilterEmptyKeepsAll(bs[1..]);
    }
  }

  class LibraryInventory {
    var books: seq<Book>

    /** The catalogue as `load_from_json` left it: `loaded` is the list of books
        it decoded, or the empty list when the file is absent or unreadable. */
    constructor (loaded: seq<Book>)
      ensures books == loaded
    {
      books := loaded;
    }

    /** Appends `book` unless a book with its ISBN is already present; `added`
        tells which message was printed. */
    method AddBook(book: Book) returns (added: bool)
      modifies this
      ensures added <==> !HasIsbn(old(books), book.isbn)
      ensures books == if added then old(books) + [book] else old(books)
      ensures UniqueIsbns(old(books)) ==> UniqueIsbns(books)
    {
      var i := 0;
      while i < |books|
        invariant 0 <= i <= |books|
        invariant forall j :: 0 <= j < i ==> books[j].isbn != book.isbn
      {
        if books[i].isbn == book.isbn {
          return false;
        }
        i := i + 1;
      }
      if UniqueIsbns(books) {
        AppendKeepsUnique(books, book);
      }
      books := books + [book];
      added := true;
    }

    /** The first book with this ISBN, or `null` (`None`) when there is none. */
    method FindByIsbn(isbn: string) returns (r: Book?)
      ensures r == null <==> !HasIsbn(books, isbn)
      ensures r != null ==> exists i :: IsFirstMatch(books, isbn, i) && books[i] == r
    {
      var i := 0;
      while i < |books|
        invariant 0 <= i <= |books|
        invariant forall j :: 0 <= j < i ==> books[j].isbn != isbn
      {
        if books[i].isbn == isbn {
          assert IsFirstMatch(books, isbn, i);
          return books[i];
        }
        i := i + 1;
      }
      return null;
    }

    /** The books whose lower-cased title contains the lower-cased keyword, in
        catalogue order. */
    function SearchByTitle(keyword: string): (r: seq<Book>)
      reads this
      ensures |r| <= |books|
      ensures forall i :: 0 <= i < |r| ==>
        r[i] in books && Contains(Lower(r[i].title), Lower(keyword))
      ensures forall i :: 0 <= i < |books| && Contains(Lower(books[i].title), Lower(keyword)) ==>
        books[i] in r
    {
      FilterByTitle(books, Lower(keyword))
    }
  }

  /** The search ignores the case of the keyword. */
  lemma SearchIgnoresKeywordCase(inv: LibraryInventory, keyword: string)
    ensures inv.SearchByTitle(Lower(keyword)) == inv.SearchByTitle(keyword)
  {
    LowerIdempotent(keyword);
  }

  /** An empty keyword returns the whole catalogue. */
  lemma SearchEmptyReturnsAll(inv: LibraryInventory)
    ensures inv.SearchByTitle("") == inv.books
  {
    FilterEmptyKeepsAll(inv.books);
  }

  /** Searching after an append finds the old results, followed by the new
      book when its title matches. */
  lemma SearchAfterAppend(bs: seq<Book>, b: Book, keyword: string)
    ensures FilterByTitle(bs + [b], Lower(keyword)) ==
      FilterByTitle(bs, Lower(keyword)) +
      (if Contains(Lower(b.title), Lower(keyword)) then [b] else [])
  {
    FilterAppend(bs, [b], Lower(keyword));
    assert [b][1..] == [];
  }
}
