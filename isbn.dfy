/** Shared result values: the catalog reports each outcome as a value
    instead of printing a message. */
module Results {

  datatype Option<+T> = None | Some(value: T)

  /** The five messages the catalog prints when an operation is refused. */
  datatype Error =
    | InvalidIsbn        // the ISBN does not clean up to exactly 13 digits
    | DuplicateIsbn      // add: the cleaned ISBN is already in the catalog
    | NotFound           // search: no stored book has the cleaned ISBN
    | AlreadyBorrowed    // borrow: the book is on loan
    | AlreadyAvailable   // return: the book is not on loan

  datatype Result<+T> = Ok(value: T) | Err(error: Error)

  /** The result of borrow and return, which hand back no value. */
  datatype Outcome = Done | Refused(error: Error)
}

/** ISBN clean-up and validation: strip every hyphen and every space, then
    accept only a string of exactly 13 decimal digits. No check digit is
    computed: the identifiers are plain 13-digit keys. */
module Isbn {
  import opened Results

  const Length: nat := 13

  predicate IsSeparator(c: char) { c == '-' || c == ' ' }

  predicate IsDigit(c: char) { '0' <= c <= '9' }

  /** `s.replace(c, "")`: every occurrence of `c` removed, all other
      characters kept in order. */
  function RemoveAll(s: string, c: char): (r: string)
    ensures |r| <= |s|
    ensures forall x :: x in r <==> x in s && x != c
  {
    if s == [] then []
    else if s[0] == c then RemoveAll(s[1..], c)
    else [s[0]] + RemoveAll(s[1..], c)
  }

  /** The clean-up the catalog applies to every ISBN it is given:
      hyphens are removed first, then spaces. */
  function Clean(raw: string): string
  {
    RemoveAll(RemoveAll(raw, '-'), ' ')
  }

  /** The characters of `s` that are neither a hyphen nor a space, in order:
      a one-pass reference definition of what the clean-up keeps. */
  function Kept(s: string): string
  {
    if s == [] then []
    else if IsSeparator(s[0]) then Kept(s[1..])
    else [s[0]] + Kept(s[1..])
  }

  /** Python's `str.isdigit` restricted to ASCII: false on the empty string. */
  predicate IsDigitString(s: string)
  {
    |s| > 0 && forall i :: 0 <= i < |s| ==> IsDigit(s[i])
  }

  /** What a stored ISBN looks like: exactly 13 decimal digits. */
  predicate IsValidIsbn(s: string)
  {
    |s| == Length && forall i :: 0 <= i < |s| ==> IsDigit(s[i])
  }

  /** The clean-up followed by the format check: the cleaned ISBN, or
      nothing when the cleaned string is not all digits or not 13 long. */
  function Validate(raw: string): (r: Option<string>)
    ensures r.Some? <==> IsValidIsbn(Kept(raw))
    ensures r.Some? ==> r.value == Kept(raw)
  {
    CleanIsKept(raw);
    var clean := Clean(raw);
    if !IsDigitString(clean) || |clean| != Length then None else Some(clean)
  }

  lemma {:induction false} RemoveAllKeepsOthers(s: string, c: char)
    requires IsSeparator(c)
    requires forall x :: x in s && IsSeparator(x) ==> x == c
    ensures RemoveAll(s, c) == Kept(s)
  {
    if s != [] {
      RemoveAllKeepsOthers(s[1..], c);
    }
  }

  /** Removing hyphens and then spaces keeps exactly the characters that are
      neither, in their original order. */
  lemma {:induction false} CleanIsKept(raw: string)
    ensures Clean(raw) == Kept(raw)
  {
    var noHyphens := RemoveAll(raw, '-');
    KeptAfterRemoveAll(raw, '-');
    RemoveAllKeepsOthers(noHyphens, ' ');
  }

  lemma {:induction false} KeptAfterRemoveAll(s: string, c: char)
    requires IsSeparator(c)
    ensures Kept(RemoveAll(s, c)) == Kept(s)
  {
    if s != [] {
      KeptAfterRemoveAll(s[1..], c);
      if s[0] != c {
        assert RemoveAll(s, c) == [s[0]] + RemoveAll(s[1..], c);
        assert ([s[0]] + RemoveAll(s[1..], c))[1..] == RemoveAll(s[1..], c);
      }
    }
  }

  /** What survives the clean-up: no separators, every other character. */
  lemma {:induction false} KeptMembers(s: string)
    ensures forall x :: x in Kept(s) <==> x in s && !IsSeparator(x)
    ensures |Kept(s)| <= |s|
  {
    if s != [] {
      KeptMembers(s[1..]);
      assert forall x :: x in s <==> x == s[0] || x in s[1..];
    }
  }

  /** Cleaning distributes over concatenation. */
  lemma {:induction false} KeptAppend(a: string, b: string)
    ensures Kept(a + b) == Kept(a) + Kept(b)
  {
    if a != [] {
      assert (a + b)[1..] == a[1..] + b;
      KeptAppend(a[1..], b);
    } else {
      assert a + b == b;
    }
  }

  /** Inserting a hyphen or a space anywhere does not change the cleaned
      ISBN, so hyphen and space variants are the same key. */
  lemma SeparatorInsensitive(prefix: string, c: char, suffix: string)
    requires IsSeparator(c)
    ensures Validate(prefix + [c] + suffix) == Validate(prefix + suffix)
  {
    KeptAppend(prefix + [c], suffix);
    KeptAppend(prefix, [c]);
    KeptAppend(prefix, suffix);
    assert Kept([c]) == Kept([c][1..]) == [];
    assert Kept(prefix) + [] == Kept(prefix);
  }

  /** A string with no separators is its own clean-up. */
  lemma {:induction false} KeptIdentity(s: string)
    requires forall i :: 0 <= i < |s| ==> !IsSeparator(s[i])
    ensures Kept(s) == s
  {
    if s != [] {
      KeptIdentity(s[1..]);
    }
  }

  /** Validation accepts a key exactly when it is 13 digits, and gives it
      back unchanged: an accepted ISBN is a fixed point. */
  lemma ValidateKey(key: string)
    ensures Validate(key) == Some(key) <==> IsValidIsbn(key)
  {
    if IsValidIsbn(key) {
      KeptIdentity(key);
    }
  }

  /** Validation is idempotent: revalidating an accepted ISBN accepts it
      again, unchanged. */
  lemma ValidateIdempotent(raw: string)
    requires Validate(raw).Some?
    ensures IsValidIsbn(Validate(raw).value)
    ensures Validate(Validate(raw).value) == Validate(raw)
  {
    ValidateKey(Validate(raw).value);
  }
}
