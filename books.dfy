/** The `Book` record of the library catalogue (Assignment-3/library_manager.py):
    a loan status that moves between "available" and "issued", and the
    mapping to and from the plain record that the catalogue file stores. */
module Books {

  const AVAILABLE: string := "available"
  const ISSUED: string := "issued"

  /** A decoded catalogue entry: a dictionary whose keys and values are strings. */
  type Record = map<string, string>

  /** The four keys `to_dict` writes. */
  const RecordKeys: set<string> := {"title", "author", "isbn", "status"}

  /** What `from_dict` produces or the `KeyError` it raises (the missing key). */
  datatype Result<T> = Success(value: T) | KeyError(key: string)

  /** The state of one book as a value. */
  datatype Fields = Fields(title: string, author: string, isbn: string, status: string)

  /** The status after a transition and the boolean the transition returns. */
  datatype Transition = Transition(status: string, ok: bool)

  /** `issue` on a book whose status is `s`. */
  function IssueStep(s: string): Transition
  {
    if s == AVAILABLE then Transition(ISSUED, true) else Transition(s, false)
  }

  /** `return_book` on a book whose status is `s`. */
  function ReturnStep(s: string): Transition
  {
    if s == ISSUED then Transition(AVAILABLE, true) else Transition(s, false)
  }

  /** A call to `issue` or to `return_book`. */
  datatype Op = Issue | Return

  function Step(s: string, op: Op): Transition
  {
    match op
    case Issue => IssueStep(s)
    case Return => ReturnStep(s)
  }

  /** The status after a sequence of calls, starting from `s`. */
  function Run(s: string, ops: seq<Op>): string
    decreases |ops|
  {
    if ops == [] then s else Run(Step(s, ops[0]).status, ops[1..])
  }

  /** A successful `issue` followed by `return_book` succeeds and restores the
      status the book had before. */
  lemma IssueThenReturn(s: string)
    requires IssueStep(s).ok
    ensures ReturnStep(IssueStep(s).status) == Transition(s, true)
  {
  }

  /** A successful `return_book` followed by `issue` succeeds and restores the
      status the book had before. */
  lemma ReturnThenIssue(s: string)
    requires ReturnStep(s).ok
    ensures IssueStep(ReturnStep(s).status) == Transition(s, true)
  {
  }

  /** Issuing an issued book fails, and so does returning an available one. */
  lemma NoDoubleTransition(s: string)
    ensures IssueStep(s).ok ==> !IssueStep(IssueStep(s).status).ok
    ensures ReturnStep(s).ok ==> !ReturnStep(ReturnStep(s).status).ok
  {
  }

  /** A book whose status is "available" or "issued" never leaves those two. */
  lemma {:induction false} RunStaysInLoanStates(s: string, ops: seq<Op>)
    requires s == AVAILABLE || s == ISSUED
    ensures Run(s, ops) == AVAILABLE || Run(s, ops) == ISSUED
    decreases |ops|
  {
    if ops != [] {
      RunStaysInLoanStates(Step(s, ops[0]).status, ops[1..]);
    }
  }

  /** Any other status (one read from a catalogue file) is never changed by
      `issue` or `return_book`. */
  lemma {:induction false} RunKeepsOtherStatus(s: string, ops: seq<Op>)
    requires s != AVAILABLE && s != ISSUED
    ensures Run(s, ops) == s
    decreases |ops|
  {
    if ops != [] {
      RunKeepsOtherStatus(Step(s, ops[0]).status, ops[1..]);
    }
  }

  /** `from_dict` on a record: title, author and isbn are read with `data[key]`
      in that order, and the status with `data.get("status", "available")`. */
  function Decode(d: Record): Result<Fields>
  {
    if "title" !in d then KeyError("title")
    else if "author" !in d then KeyError("author")
    else if "isbn" !in d then KeyError("isbn")
    else Success(Fields(d["title"], d["author"], d["isbn"],
                        if "status" in d then d["status"] else AVAILABLE))
  }

  /** `from_dict` fails exactly when one of the three required keys is missing,
      and then names the first missing one in the order title, author, isbn. */
  lemma DecodeFailsIff(d: Record)
    ensures Decode(d).KeyError? <==> !("title" in d && "author" in d && "isbn" in d)
    ensures Decode(d).KeyError? ==>
      var k := Decode(d).key;
      k !in d && (k == "title" || k == "author" || k == "isbn") &&
      (k == "author" ==> "title" in d) &&
      (k == "isbn" ==> "title" in d && "author" in d)
  {
  }

  /** A record without a status decodes to an available book; extra keys are ignored. */
  lemma DecodeDefaultsStatus(d: Record)
    requires "title" in d && "author" in d && "isbn" in d && "status" !in d
    ensures Decode(d) == Success(Fields(d["title"], d["author"], d["isbn"], AVAILABLE))
  {
  }

  class Book {
    const title: string
    const author: string
    const isbn: string
    var status: string

    /** `Book(title, author, isbn, status="available")`. */
    constructor (title: string, author: string, isbn: string, status: string := AVAILABLE)
      ensures this.title == title && this.author == author && this.isbn == isbn
      ensures this.status == status
    {
      this.title := title;
      this.author := author;
      this.isbn := isbn;
      this.status := status;
    }

    function Snapshot(): Fields
      reads this
    {
      Fields(title, author, isbn, status)
    }

    /** Moves an available book to "issued" and answers true; leaves any other
        status as it is and answers false. */
    method Issue() returns (ok: bool)
      modifies this`status
      ensures ok <==> old(status) == AVAILABLE
      ensures status == if ok then ISSUED else old(status)
      ensures Transition(status, ok) == IssueStep(old(status))
    {
      if status == AVAILABLE {
        status := ISSUED;
        return true;
      }
      return false;
    }

    /** Moves an issued book back to "available" and answers true; leaves any
        other status as it is and answers false. */
    method ReturnBook() returns (ok: bool)
      modifies this`status
      ensures ok <==> old(status) == ISSUED
      ensures status == if ok then AVAILABLE else old(status)
      ensures Transition(status, ok) == ReturnStep(old(status))
    {
      if status == ISSUED {
        status := AVAILABLE;
        return true;
      }
      return false;
    }

    /** The record stored in the catalogue: exactly the four keys, each holding
        the field of the same name. */
    function ToDict(): (d: Record)
      reads this
      ensures d.Keys == RecordKeys
      ensures d["title"] == title && d["author"] == author
      ensures d["isbn"] == isbn && d["status"] == status
    {
      map["title" := title, "author" := author, "isbn" := isbn, "status" := status]
    }

    /** `Book.from_dict(data)`: a fresh book built from the record, or the
        `KeyError` of the first missing required key. */
    static method FromDict(d: Record) returns (r: Result<Book>)
      ensures Decode(d).KeyError? ==> r == KeyError(Decode(d).key)
      ensures Decode(d).Success? ==>
        r.Success? && fresh(r.value) && r.value.Snapshot() == Decode(d).value
    {
      match Decode(d)
      case KeyError(k) =>
        r := KeyError(k);
      case Success(f) =>
        var b := new Book(f.title, f.author, f.isbn, f.status);
        r := Success(b);
    }
  }

  /** A new book is available. */
  method NewBookIsAvailable(title: string, author: string, isbn: string) returns (b: Book)
    ensures fresh(b) && b.Snapshot() == Fields(title, author, isbn, AVAILABLE)
  {
    b := new Book(title, author, isbn);
  }

  /** Round trip: decoding a book's record gives back its title, author, isbn
      and status. */
  lemma RoundTrip(b: Book)
    ensures Decode(b.ToDict()) == Success(b.Snapshot())
  {
  }

  /** The other direction: a record holding exactly the four keys is the record
      of any book whose state is what it decodes to. */
  lemma {:induction false} DecodeThenEncode(d: Record, b: Book)
    requires d.Keys == RecordKeys
    requires Decode(d) == Success(b.Snapshot())
    ensures b.ToDict() == d
  {
    var e := b.ToDict();
    assert e.Keys == d.Keys;
    forall k | k in d ensures e[k] == d[k] {
      assert k == "title" || k == "author" || k == "isbn" || k == "status";
    }
  }
}
