# Library catalogue: loan state machine and inventory

A Dafny model of the library catalogue in `Assignment-3/library_manager.py`.
It models two classes:

- `Book` (module `Books`, file `books.dfy`). A book has a title, an author, an ISBN and a
  loan status. `issue` moves an "available" book to "issued" and `return_book`
  moves it back. Each call returns whether the move happened. A failed call
  leaves the status as it was. `to_dict` and `from_dict` map a book to and from
  the plain record that the catalogue file holds.
- `LibraryInventory` (module `Inventory`, file `inventory.dfy`). This is the catalogue, an
  ordered list of book objects. `add_book` refuses a duplicate ISBN and
  otherwise appends. `find_by_isbn` returns the first book with the ISBN, or
  `None`. `search_by_title` returns, in catalogue order, the books whose
  lower-cased title contains the lower-cased keyword.

Module `Text` (file `text.dfy`) holds the string operations the search needs:
`str.lower()` on ASCII, and Python's substring test `needle in hay`.

Modelling choices:

- `Book` is a class because `issue` and `return_book` update `self.status` in place.
  `find_by_isbn` returns the very object stored in the catalogue, so callers mutate the catalogue entry.
  Title, author and ISBN are `const` fields: the code never reassigns them.
- The status is an arbitrary string. `from_dict` copies whatever the record
  holds, so a status other than "available" or "issued" is possible.
- A record is a `map<string, string>`. `from_dict` raises `KeyError` when
  title, author or isbn is missing. The model returns `KeyError(key)` naming
  the first missing key, in Python's argument evaluation order.
- `add_book` prints one of two messages and returns nothing. The model returns
  a boolean `added` that says which message was printed.
- The inventory constructor takes the list of books that `load_from_json`
  produced. Uniqueness of ISBNs is not a class invariant, because a loaded
  file may already hold duplicates. `AddBook` preserves uniqueness when it holds beforehand.

## Model

| member | source | states |
|---|---|---|
| `Books.Book.constructor` | Assignment-3/library_manager.py:8-12 | the new book holds the given title, author, ISBN and status |
| `Books.NewBookIsAvailable` | Assignment-3/library_manager.py:8 | a book created without a status is "available" |
| `Books.Book.Issue` | Assignment-3/library_manager.py:14-18 | returns true exactly when the old status is "available"; then the status is "issued", otherwise unchanged; title, author and ISBN are outside its frame |
| `Books.Book.ReturnBook` | Assignment-3/library_manager.py:20-24 | returns true exactly when the old status is "issued"; then the status is "available", otherwise unchanged |
| `Books.IssueThenReturn` | Assignment-3/library_manager.py:14-24 | a successful issue followed by return succeeds and restores the earlier status |
| `Books.ReturnThenIssue` | Assignment-3/library_manager.py:14-24 | a successful return followed by issue succeeds and restores the earlier status |
| `Books.NoDoubleTransition` | Assignment-3/library_manager.py:14-24 | issuing an issued book fails, and so does returning an available one |
| `Books.RunStaysInLoanStates` | Assignment-3/library_manager.py:14-24 | from "available" or "issued", any sequence of issue/return calls stays within those two statuses |
| `Books.RunKeepsOtherStatus` | Assignment-3/library_manager.py:14-24 | any other status is left unchanged by every sequence of issue/return calls |
| `Books.Book.ToDict` | Assignment-3/library_manager.py:26-32 | the record has exactly the keys title, author, isbn and status, each holding that field |
| `Books.Book.FromDict` | Assignment-3/library_manager.py:34-41 | a fresh book with the decoded fields, or the KeyError of the missing key |
| `Books.DecodeFailsIff` | Assignment-3/library_manager.py:36-41 | decoding fails exactly when title, author or isbn is missing, and it names the first missing key in that order |
| `Books.DecodeDefaultsStatus` | Assignment-3/library_manager.py:40 | a record without a status decodes to an "available" book |
| `Books.RoundTrip` | Assignment-3/library_manager.py:26-41 | decoding a book's record gives back its title, author, ISBN and status |
| `Books.DecodeThenEncode` | Assignment-3/library_manager.py:26-41 | a record with exactly the four keys is the record of any book whose state it decodes to |
| `Inventory.LibraryInventory.constructor` | Assignment-3/library_manager.py:48-51 | the catalogue starts as the list of loaded books |
| `Inventory.LibraryInventory.AddBook` | Assignment-3/library_manager.py:71-78 | with a duplicate ISBN the catalogue is unchanged and the result is false; otherwise the book is appended at the end and the result is true; unique ISBNs stay unique |
| `Inventory.AppendKeepsUnique` | Assignment-3/library_manager.py:72-77 | appending a book with a new ISBN keeps all ISBNs distinct |
| `Inventory.AddedBookIsFound` | Assignment-3/library_manager.py:77-84 | after a successful add, the first book with the new ISBN is the one just appended |
| `Inventory.LibraryInventory.FindByIsbn` | Assignment-3/library_manager.py:80-84 | `null` exactly when no book has the ISBN; otherwise the book at the lowest index with that ISBN |
| `Inventory.UniqueMatchIsFirst` | Assignment-3/library_manager.py:80-84 | with unique ISBNs, any book with the queried ISBN is the first match |
| `Inventory.FilterByTitle` | Assignment-3/library_manager.py:88 | every kept book is in the list and matches; every matching book of the list is kept |
| `Inventory.FilterAppend` | Assignment-3/library_manager.py:88 | filtering a concatenation concatenates the filtered parts, so catalogue order is kept |
| `Inventory.FilterEmptyKeepsAll` | Assignment-3/library_manager.py:88 | with an empty keyword every book is kept, in order |
| `Inventory.LibraryInventory.SearchByTitle` | Assignment-3/library_manager.py:86-88 | exactly the books whose lower-cased title contains the lower-cased keyword |
| `Inventory.SearchIgnoresKeywordCase` | Assignment-3/library_manager.py:87-88 | searching with the lower-cased keyword gives the same result as with the keyword itself |
| `Inventory.SearchEmptyReturnsAll` | Assignment-3/library_manager.py:86-88 | an empty keyword returns the whole catalogue in order |
| `Inventory.SearchAfterAppend` | Assignment-3/library_manager.py:77-88 | after an append, the search returns the earlier results, then the new book if its title matches |
| `Text.Lower` | Assignment-3/library_manager.py:87-88 | the result has the input's length and each character lower-cased |
| `Text.LowerIdempotent` | Assignment-3/library_manager.py:87-88 | lower-casing twice equals lower-casing once |
| `Text.ContainsIff` | Assignment-3/library_manager.py:88 | the substring test succeeds exactly when the needle occurs at some position of the haystack |
| `Text.ContainsEmpty` | Assignment-3/library_manager.py:88 | the empty string is contained in every string |

## Left out

- `load_from_json` and `save_to_json`: file existence checks, JSON parsing and writing, and the bare `except` are I/O. Only the record mapping of `to_dict` and `from_dict` is modelled.
- Record values are modelled as strings. JSON allows other value types, and `from_dict` would copy those too.
- `display_all` and `main`: console output and the interactive menu loop.
- The two messages `add_book` prints: they are replaced by the returned boolean.
- `Text.Lower`: models `str.lower()` on ASCII only. Python's full Unicode case mapping is not modelled.
- `Assignment-2/gradebook.py` and the dashboard scripts under `Assignment-5(Capstone)/` are not part of this model.
