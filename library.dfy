/** The book catalog: books with a loan flag, and an ordered list of them
    that grows by validated, duplicate-free additions. */
module Library {
  import opened Results
  import opened Isbn

  /** The status text shown next to a book when the catalog is listed or a
      search finds it. */
  function StatusLabel(available: bool): (text: string)
    ensures text == "Available" <==> available
    ensures text == "Borrowed" <==> !available
  {
    if available then "Available" else "Borrowed"
  }

  /** One catalog entry. Title, author and ISBN are set once, when the book
      is created; only the loan flag changes afterwards. */
  class Book {
    const title: string
    const author: string
    const isbn: string
    var available: bool

    constructor (title: string, author: string, isbn: string, available: bool := true)
      ensures this.title == title && this.author == author && this.isbn == isbn
      ensures this.available == available
    {
      this.title := title;
      this.author := author;
      this.isbn := isbn;
      this.available := available;
    }

    /** Lend the book: an available book becomes borrowed; a borrowed book
        is left as it is and the request is refused. */
    method Borrow() returns (outcome: Outcome)
      modifies this`available
      ensures !available
      ensures outcome == Done <==> old(available)
      ensures outcome == Refused(AlreadyBorrowed) <==> !old(available)
    {
      if available {
        available := false;
        outcome := Done;
      } else {
        outcome := Refused(AlreadyBorrowed);
      }
    }

    /** Take the book back: a borrowed book becomes available; an available
        book is left as it is and the request is refused. */
    method ReturnBook() returns (outcome: Outcome)
      modifies this`available
      ensures available
      ensures outcome == Done <==> !old(available)
      ensures outcome == Refused(AlreadyAvailable) <==> old(available)
    {
      if !available {
        available := true;
        outcome := Done;
      } else {
        outcome := Refused(AlreadyAvailable);
      }
    }
  }

  /** The ISBNs of `books`, position by position. */
  function Isbns(books: seq<Book>): (keys: seq<string>)
    ensures |keys| == |books|
    ensures forall i :: 0 <= i < |books| ==> keys[i] == books[i].isbn
  {
    seq(|books|, i requires 0 <= i < |books| => books[i].isbn)
  }

  /** The catalog invariant: every stored ISBN is 13 digits (so holds no
      hyphen or space) and no ISBN is stored twice. */
  predicate WellFormed(keys: seq<string>)
  {
    (forall i :: 0 <= i < |keys| ==> IsValidIsbn(keys[i])) &&
    (forall i, j :: 0 <= i < j < |keys| ==> keys[i] != keys[j])
  }

  /** The position of the first occurrence of `key`, if any. */
  function IndexOf(keys: seq<string>, key: string): (r: Option<nat>)
    ensures r.None? <==> key !in keys
    ensures r.Some? ==> r.value < |keys| && keys[r.value] == key
    ensures r.Some? ==> forall j :: 0 <= j < r.value ==> keys[j] != key
  {
    if keys == [] then None
    else if keys[0] == key then Some(0)
    else match IndexOf(keys[1..], key)
      case None => None
      case Some(i) => Some(i + 1)
  }

  /** What a search answers: a malformed ISBN is refused; otherwise the
      first book, in insertion order, whose ISBN is the cleaned input. */
  function Find(books: seq<Book>, raw: string): (r: Result<Book>)
    ensures r == Err(InvalidIsbn) <==> Validate(raw).None?
    ensures r == Err(NotFound) <==> Validate(raw).Some? && Validate(raw).value !in Isbns(books)
    ensures r.Err? ==> r.error == InvalidIsbn || r.error == NotFound
    ensures r.Ok? ==> r.value in books && r.value.isbn == Kept(raw)
    ensures r.Ok? ==>
      exists i :: 0 <= i < |books| && books[i] == r.value &&
                  (forall j :: 0 <= j < i ==> books[j].isbn != Kept(raw))
  {
    match Validate(raw)
    case None => Err(InvalidIsbn)
    case Some(key) =>
      match IndexOf(Isbns(books), key)
      case None => Err(NotFound)
      case Some(i) => Ok(books[i])
  }

  /** In a well-formed catalog every stored book is the one a search with
      its ISBN finds, whatever hyphens or spaces the request carries. */
  lemma FindStored(books: seq<Book>, i: nat, raw: string)
    requires WellFormed(Isbns(books))
    requires i < |books|
    requires Validate(raw) == Some(books[i].isbn)
    ensures Find(books, raw) == Ok(books[i])
  {
  }

  /** A book appended under a new ISBN is found by every raw ISBN that
      cleans up to it. */
  lemma FindAppended(books: seq<Book>, b: Book, raw: string)
    requires b.isbn !in Isbns(books)
    requires Validate(raw) == Some(b.isbn)
    ensures Find(books + [b], raw) == Ok(b)
  {
    assert Isbns(books + [b]) == Isbns(books) + [b.isbn];
  }

  /** Appending a valid, new ISBN keeps the catalog invariant. */
  lemma AppendWellFormed(keys: seq<string>, key: string)
    requires WellFormed(keys)
    requires IsValidIsbn(key) && key !in keys
    ensures WellFormed(keys + [key])
  {
  }

  /** The catalog: books in the order they were added. */
  class Catalog {
    var books: seq<Book>

    ghost predicate Valid()
      reads this
    {
      WellFormed(Isbns(books))
    }

    constructor ()
      ensures books == [] && Valid()
    {
      books := [];
    }

    /** Validate the ISBN, scan for a book that already has it, and only
        then append a new available book under the cleaned ISBN. */
    method Add(title: string, author: string, raw: string) returns (r: Result<Book>)
      modifies this
      ensures old(Valid()) ==> Valid()
      ensures match Validate(raw)
        case None => r == Err(InvalidIsbn) && books == old(books)
        case Some(key) =>
          if key in Isbns(old(books)) then
            r == Err(DuplicateIsbn) && books == old(books)
          else
            r.Ok? && fresh(r.value) && books == old(books) + [r.value] &&
            r.value.title == title && r.value.author == author &&
            r.value.isbn == key && r.value.available
    {
      var checked := Validate(raw);
      if checked.None? {
        return Err(InvalidIsbn);
      }
      var key := checked.value;
      var i := 0;
      while i < |books|
        invariant 0 <= i <= |books|
        invariant forall j :: 0 <= j < i ==> books[j].isbn != key
      {
        if books[i].isbn == key {
          return Err(DuplicateIsbn);
        }
        i := i + 1;
      }
      var book := new Book(title, author, key);
      ghost var before := books;
      books := books + [book];
      assert Isbns(books) == Isbns(before) + [key];
      if WellFormed(Isbns(before)) {
        AppendWellFormed(Isbns(before), key);
      }
      r := Ok(book);
    }

    /** Validate the ISBN, then return the first book stored under it. */
    method Search(raw: string) returns (r: Result<Book>)
      ensures r == Find(books, raw)
    {
      var checked := Validate(raw);
      if checked.None? {
        return Err(InvalidIsbn);
      }
      var key := checked.value;
      var i := 0;
      while i < |books|
        invariant 0 <= i <= |books|
        invariant forall j :: 0 <= j < i ==> books[j].isbn != key
      {
        if books[i].isbn == key {
          assert IndexOf(Isbns(books), key) == Some(i);
          return Ok(books[i]);
        }
        i := i + 1;
      }
      return Err(NotFound);
    }
  }
}
