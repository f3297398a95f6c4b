/** Sequences of catalog operations, as a user of the menu drives them,
    and what the contracts of the single operations let a caller conclude. */
module Scenarios {
  import opened Results
  import opened Isbn
  import opened Library

  /** After a book is added, a search with any spelling of its ISBN that
      cleans up alike finds that very book; after a refused duplicate, the
      search finds the book already stored under that ISBN. */
  method AddThenSearch(c: Catalog, title: string, author: string, raw: string, variant: string)
    returns (added: Result<Book>, found: Result<Book>)
    requires Kept(variant) == Kept(raw)
    modifies c
    ensures added.Ok? ==> found == added
    ensures added == Err(DuplicateIsbn) ==>
      c.books == old(c.books) && found.Ok? && found.value in c.books && found.value.isbn == Kept(raw)
    ensures added == Err(InvalidIsbn) <==> found == Err(InvalidIsbn)
  {
    added := c.Add(title, author, raw);
    found := c.Search(variant);
    if added.Ok? {
      FindAppended(old(c.books), added.value, variant);
    }
  }

  /** Borrowing and then returning a book always leaves it available. */
  method BorrowThenReturn(b: Book) returns (lent: Outcome, back: Outcome)
    modifies b`available
    ensures b.available
    ensures lent == Done <==> old(b.available)
    ensures back == Done
  {
    lent := b.Borrow();
    back := b.ReturnBook();
  }

  /** A second borrow in a row is refused and changes nothing. */
  method BorrowTwice(b: Book) returns (first: Outcome, second: Outcome)
    modifies b`available
    ensures !b.available
    ensures second == Refused(AlreadyBorrowed)
  {
    first := b.Borrow();
    ghost var between := b.available;
    second := b.Borrow();
    assert b.available == between;
  }

  lemma PlainKey()
    ensures Validate("9780441013593") == Some("9780441013593")
  {
    assert IsValidIsbn("9780441013593");
    ValidateKey("9780441013593");
  }

  lemma HyphenatedKey()
    ensures Validate("978-0441-013593") == Validate("9780441013593")
  {
    SeparatorInsensitive("978", '-', "0441-013593");
    SeparatorInsensitive("9780441", '-', "013593");
    assert "978-0441-013593" == "978" + ['-'] + "0441-013593";
    assert "978" + "0441-013593" == "9780441" + ['-'] + "013593";
    assert "9780441" + "013593" == "9780441013593";
  }

  lemma ShortKey()
    ensures Validate("12345") == None
  {
  }

  /** One session: add a book, find it by a hyphenated spelling, lend it
      twice, take it back, and try to add a book with a short ISBN. */
  method DuneSession()
  {
    PlainKey();
    HyphenatedKey();
    ShortKey();
    var catalog := new Catalog();
    var added := catalog.Add("Dune", "Frank Herbert", "9780441013593");
    assert added.Ok? && added.value.available;
    var dune := added.value;

    var found := catalog.Search("978-0441-013593");
    FindStored(catalog.books, 0, "978-0441-013593");
    assert found == Ok(dune);

    var lent := dune.Borrow();
    assert lent == Done && !dune.available;
    var again := dune.Borrow();
    assert again == Refused(AlreadyBorrowed);
    var back := dune.ReturnBook();
    assert back == Done && dune.available;

    var short := catalog.Add("Short", "Nobody", "12345");
    assert short == Err(InvalidIsbn) && catalog.books == [dune];
  }
}
