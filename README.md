# Library catalog in Dafny

This project models the book catalog of a small console library system. The
catalog is an ordered in-memory list of books. Each book has a title, an
author, an ISBN and an `available` flag. A book is added only if its ISBN,
once every hyphen and space is removed, is exactly 13 decimal digits and is
not already in the list. A search cleans the ISBN in the same way and returns
the first book stored under it. A book can be borrowed when it is available and
returned when it is borrowed; any other request is refused and changes
nothing. The ISBNs are plain 13-digit keys, and no check digit is computed.

Files:

- `isbn.dfy`, module `Results`: the result values that replace the printed
  messages. These are `Result<Book>` (`Ok` or `Err`), `Outcome` (`Done` or
  `Refused`) and the five errors `InvalidIsbn`, `DuplicateIsbn`, `NotFound`,
  `AlreadyBorrowed` and `AlreadyAvailable`.
- `isbn.dfy`, module `Isbn`: the ISBN clean-up as the source writes it (remove
  hyphens, then remove spaces), a one-pass reference definition `Kept`, the
  13-digit check `Validate`, and lemmas about them.
- `library.dfy`, module `Library`: class `Book`, whose `Borrow` and
  `ReturnBook` update the `available` field in place. Class `Catalog` holds
  `books: seq<Book>`; its `Add` and `Search` are methods with the source's
  linear scans as `while` loops. `Find` is the specification function for a
  search, and `WellFormed` is the catalog invariant (every key is 13 digits
  and no key appears twice).
- `scenarios.dfy`, module `Scenarios`: operations run in sequence. These are
  add-then-search, borrow-then-return, borrow twice, and one whole session
  (`DuneSession`): add "Dune", find it as `978-0441-013593`, borrow it twice,
  return it, then fail to add ISBN `12345`.

In the source, `add` and `search` are static methods that take the list as an
argument. Here they are methods of a `Catalog` object that owns the list.
Title, author and ISBN are never reassigned after a `Book` is built, so they
are `const` fields, and only `available` is mutable.

## Model

| member | source | states |
|---|---|---|
| `Isbn.RemoveAll` | library-system-english.py:58 | `replace(c, "")`: the result is no longer than the input, and it holds exactly the input's characters other than `c` |
| `Isbn.CleanIsKept` | library-system-english.py:58 | removing hyphens and then spaces gives exactly the characters that are neither, in their original order (the reference `Kept`) |
| `Isbn.KeptMembers` | library-system-english.py:58 | a character survives the clean-up iff it is in the input and is not a hyphen or a space; the clean-up never lengthens the string |
| `Isbn.KeptAppend` | library-system-english.py:135 | cleaning a concatenation is the concatenation of the cleaned parts |
| `Isbn.Validate` | library-system-english.py:58-63 | the ISBN is accepted iff the cleaned string has length 13 and all its characters are digits; an accepted ISBN comes back as the cleaned string |
| `Isbn.SeparatorInsensitive` | library-system-english.py:135-140 | inserting a hyphen or a space anywhere in a raw ISBN does not change the validation result |
| `Isbn.ValidateKey` | library-system-english.py:58-61 | validation returns a string unchanged iff that string is already 13 digits |
| `Isbn.ValidateIdempotent` | library-system-english.py:58-61 | an accepted ISBN is 13 digits, and validating it again accepts it unchanged |
| `Library.StatusLabel` | library-system-english.py:116 | the status text is "Available" iff the book is available, and "Borrowed" iff it is not |
| `Library.Book.constructor` | library-system-english.py:26-39 | a new book holds the given title, author and ISBN; `available` defaults to true |
| `Library.Book.Borrow` | library-system-english.py:77-87 | an available book becomes borrowed (`Done`); a borrowed book stays borrowed (`AlreadyBorrowed`); nothing else changes |
| `Library.Book.ReturnBook` | library-system-english.py:89-99 | a borrowed book becomes available (`Done`); an available book stays available (`AlreadyAvailable`); nothing else changes |
| `Library.IndexOf` | library-system-english.py:143-147 | the first position holding the key, or none iff the key does not occur |
| `Library.Find` | library-system-english.py:120-150 | `InvalidIsbn` iff validation fails; `NotFound` iff the ISBN is valid but not stored; otherwise the first book in list order whose ISBN is the cleaned input |
| `Library.FindStored` | library-system-english.py:143-147 | in a well-formed catalog, searching with any spelling that validates to a stored book's ISBN returns that book |
| `Library.FindAppended` | library-system-english.py:72-73 | a book appended under a new ISBN is found by every raw ISBN that validates to that ISBN |
| `Library.AppendWellFormed` | library-system-english.py:65-73 | appending a 13-digit key that is not already stored keeps all keys valid and pairwise distinct |
| `Library.Catalog.constructor` | library-system-english.py:177 | a new catalog is empty and satisfies the invariant |
| `Library.Catalog.Add` | library-system-english.py:42-75 | an invalid ISBN gives `InvalidIsbn` and a duplicate gives `DuplicateIsbn`, both leaving the list unchanged; otherwise one new available book with the given title, author and cleaned ISBN is appended and the earlier entries are unchanged; the catalog invariant is preserved |
| `Library.Catalog.Search` | library-system-english.py:120-150 | the linear scan returns exactly `Find` of the current list, and changes nothing |
| `Scenarios.AddThenSearch` | library-system-english.py:183-196 | after a successful add, a search with any spelling that cleans alike returns the new book; after a duplicate, the list is unchanged and the search returns the book already in the list under that ISBN; add and search refuse the same malformed ISBNs |
| `Scenarios.BorrowThenReturn` | library-system-english.py:83-96 | borrowing then returning always leaves the book available, and the return succeeds |
| `Scenarios.BorrowTwice` | library-system-english.py:83-87 | the second of two consecutive borrows is refused with `AlreadyBorrowed` and the book stays borrowed |
| `Scenarios.PlainKey` | library-system-english.py:58-61 | "9780441013593" is accepted as itself |
| `Scenarios.HyphenatedKey` | library-system-english.py:135-138 | "978-0441-013593" validates to the same key as "9780441013593" |
| `Scenarios.ShortKey` | library-system-english.py:61-63 | "12345" is rejected |

## Left out

- The interactive menu (`display_menu`, `main`): console input, the menu loop and the out-of-range option message. This includes the check that refuses a borrow or return when the list is empty (library-system-english.py:192, 202). `Scenarios.DuneSession` shows the menu's add, search, borrow and return steps run in sequence.
- All printed text, and the formatting done by `show` and by a successful search. Outcomes are returned as values; only the choice of status text is modelled (`StatusLabel`).
- Python's `str.isdigit` also accepts non-ASCII Unicode digits. Here a digit is `'0'` to `'9'` only.
- The source's `search` returns `None` both for a malformed ISBN and for a missing book, and the two cases differ only in their printed message. The model returns `Err(InvalidIsbn)` and `Err(NotFound)` separately.
- In the source, the list is a plain Python list passed by reference, and any caller could change it or a book's other attributes. The model gives the list to one `Catalog` object and makes title, author and ISBN immutable. The source never changes these fields.
- Library.Catalog.Add: the invariant is stated as `old(Valid()) ==> Valid()` instead of as a precondition, because the source's `add` accepts any list.
