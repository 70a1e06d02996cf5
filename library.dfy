/** The library: an ordered list of books mirrored to a file after every change
    that adds a book or finds the book it was asked for. */
module LibraryManage {
  import opened Books
  import opened Filters
  import opened Text

  // ---------------------------------------------------------------------------
  // Lookups by id
  // ---------------------------------------------------------------------------

  /** `any(book.book_id == id for book in bs)`. */
  predicate HasId(bs: seq<Book>, id: string)
  {
    exists i | 0 <= i < |bs| :: bs[i].bookId == id
  }

  function WithId(bs: seq<Book>, id: string): seq<Book>
  {
    Filter(bs, (b: Book) => b.bookId == id)
  }

  /** `any(...)` holds exactly when some record carries the id, that is, when `WithId` is not empty. */
  lemma HasIdIffWithId(bs: seq<Book>, id: string)
    ensures HasId(bs, id) <==> WithId(bs, id) != []
  {
    var r := WithId(bs, id);
    assert r != [] ==> r[0] in bs && r[0].bookId == id;
  }

  /** `[book for book in bs if book.book_id != id]`: every record with the id is
      dropped, the others are kept in order, and the list shrinks by the number
      of records that carried the id. */
  function WithoutId(bs: seq<Book>, id: string): (r: seq<Book>)
    ensures !HasId(r, id)
    ensures forall i :: 0 <= i < |bs| && bs[i].bookId != id ==> bs[i] in r
    ensures forall i :: 0 <= i < |r| ==> r[i] in bs
    ensures |r| == |bs| - |WithId(bs, id)|
    ensures !HasId(bs, id) ==> r == bs
  {
    FilterComplementLength(bs, (b: Book) => b.bookId == id, (b: Book) => b.bookId != id);
    Filter(bs, (b: Book) => b.bookId != id)
  }

  /** Removing from a concatenation removes from each part and keeps the parts in order. */
  lemma WithoutIdAppend(a: seq<Book>, b: seq<Book>, id: string)
    ensures WithoutId(a + b, id) == WithoutId(a, id) + WithoutId(b, id)
  {
    FilterAppend(a, b, (x: Book) => x.bookId != id);
  }

  /** Adding a book under a fresh id and then removing that id restores the list. */
  lemma AddThenRemove(bs: seq<Book>, b: Book)
    requires !HasId(bs, b.bookId)
    ensures WithoutId(bs + [b], b.bookId) == bs
  {
    WithoutIdAppend(bs, [b], b.bookId);
    assert WithoutId([b], b.bookId) == [];
  }

  /** Adding a book under an id that is already present and then removing that id
      drops the old records with it too: ids are not checked for uniqueness on add. */
  lemma AddDuplicateThenRemove(bs: seq<Book>, b: Book)
    requires HasId(bs, b.bookId)
    ensures |WithoutId(bs + [b], b.bookId)| < |bs|
  {
    WithoutIdAppend(bs, [b], b.bookId);
    assert WithoutId([b], b.bookId) == [];
    var i :| 0 <= i < |bs| && bs[i].bookId == b.bookId;
    assert bs[i] in WithId(bs, b.bookId);
  }

  /** Removing the same id twice is removing it once. */
  lemma WithoutIdIdempotent(bs: seq<Book>, id: string)
    ensures WithoutId(WithoutId(bs, id), id) == WithoutId(bs, id)
  {
    FilterIdempotent(bs, (b: Book) => b.bookId != id);
  }

  /** Position of the first record with the id. */
  function FirstIndex(bs: seq<Book>, id: string): (i: nat)
    requires HasId(bs, id)
    ensures i < |bs| && bs[i].bookId == id
    ensures forall j :: 0 <= j < i ==> bs[j].bookId != id
  {
    if bs[0].bookId == id then 0 else FirstIndex(bs[1..], id) + 1
  }

  // ---------------------------------------------------------------------------
  // Status update
  // ---------------------------------------------------------------------------

  /** The list after giving the first record with the id the status `st`:
      nothing changes when no record has the id; otherwise that record's status,
      and nothing else, is replaced. */
  function SetStatus(bs: seq<Book>, id: string, st: string): (r: seq<Book>)
    ensures |r| == |bs|
    ensures !HasId(bs, id) ==> r == bs
    ensures HasId(bs, id) ==>
              var i := FirstIndex(bs, id);
              r == bs[i := bs[i].(status := st)]
  {
    if bs == [] then []
    else if bs[0].bookId == id then [bs[0].(status := st)] + bs[1..]
    else
      HasIdTail(bs, id);
      [bs[0]] + SetStatus(bs[1..], id, st)
  }

  /** Past a first record without the id, presence and first position are those of the rest. */
  lemma HasIdTail(bs: seq<Book>, id: string)
    requires bs != [] && bs[0].bookId != id
    ensures HasId(bs, id) == HasId(bs[1..], id)
    ensures HasId(bs, id) ==> FirstIndex(bs, id) == FirstIndex(bs[1..], id) + 1
  {
    if HasId(bs, id) {
      var i :| 0 <= i < |bs| && bs[i].bookId == id;
      assert bs[1..][i - 1].bookId == id;
    }
    if HasId(bs[1..], id) {
      var i :| 0 <= i < |bs| - 1 && bs[1..][i].bookId == id;
      assert bs[i + 1].bookId == id;
    }
  }

  /** Giving a record the status it already has leaves the list unchanged. */
  lemma SetSameStatus(bs: seq<Book>, id: string)
    requires HasId(bs, id)
    ensures SetStatus(bs, id, bs[FirstIndex(bs, id)].status) == bs
  {
  }

  /** The status update changes no id, so the same record stays first with its id. */
  lemma SetStatusKeepsIds(bs: seq<Book>, id: string, st: string)
    ensures forall k :: 0 <= k < |bs| ==> SetStatus(bs, id, st)[k].bookId == bs[k].bookId
    ensures HasId(SetStatus(bs, id, st), id) == HasId(bs, id)
    ensures HasId(bs, id) ==> FirstIndex(SetStatus(bs, id, st), id) == FirstIndex(bs, id)
  {
  }

  /** Setting a status twice is setting it once. */
  lemma SetStatusIdempotent(bs: seq<Book>, id: string, st: string)
    ensures SetStatus(SetStatus(bs, id, st), id, st) == SetStatus(bs, id, st)
  {
    SetStatusKeepsIds(bs, id, st);
  }

  // ---------------------------------------------------------------------------
  // Search
  // ---------------------------------------------------------------------------

  /** The menu choices the search recognises: by title, by author, by year. */
  predicate IsChoice(choice: string)
  {
    choice == "1" || choice == "2" || choice == "3"
  }

  /** The text a search looks in: the lower-cased title or author, or the year as it is. */
  function SearchedText(choice: string, b: Book): string
  {
    if choice == "1" then Lower(b.title)
    else if choice == "2" then Lower(b.author)
    else b.year
  }

  /** Whether a book answers a search: choice "1" matches the title and "2" the
      author, both ignoring case; "3" matches the year, lower-casing the term but
      not the year; any other choice matches nothing. */
  predicate Matches(choice: string, term: string, b: Book): (r: bool)
    ensures r ==> IsChoice(choice)
    ensures r ==> |term| <= |SearchedText(choice, b)|
  {
    if choice == "1" then Contains(Lower(term), Lower(b.title))
    else if choice == "2" then Contains(Lower(term), Lower(b.author))
    else if choice == "3" then Contains(Lower(term), b.year)
    else false
  }

  /** A book answers a search exactly when the choice is recognised and the
      lower-cased term occurs somewhere in the text that choice looks in. */
  lemma MatchesIffOccurs(choice: string, term: string, b: Book)
    ensures Matches(choice, term, b) <==>
              IsChoice(choice) && exists i: nat :: OccursAt(Lower(term), SearchedText(choice, b), i)
  {
    if IsChoice(choice) {
      ContainsIffOccurs(Lower(term), SearchedText(choice, b));
      assert Matches(choice, term, b) == Contains(Lower(term), SearchedText(choice, b));
    }
  }

  /** The books, in library order, that answer the search. */
  function Search(bs: seq<Book>, choice: string, term: string): (r: seq<Book>)
    ensures forall i :: 0 <= i < |r| ==> r[i] in bs && Matches(choice, term, r[i])
    ensures forall i :: 0 <= i < |bs| && Matches(choice, term, bs[i]) ==> bs[i] in r
  {
    Filter(bs, (b: Book) => Matches(choice, term, b))
  }

  /** An unrecognised choice finds nothing. */
  lemma SearchUnknownChoice(bs: seq<Book>, choice: string, term: string)
    requires choice != "1" && choice != "2" && choice != "3"
    ensures Search(bs, choice, term) == []
  {
    FilterNone(bs, (b: Book) => Matches(choice, term, b));
  }

  /** Searching a concatenation searches each part and keeps them in order. */
  lemma SearchAppend(a: seq<Book>, b: seq<Book>, choice: string, term: string)
    ensures Search(a + b, choice, term) == Search(a, choice, term) + Search(b, choice, term)
  {
    FilterAppend(a, b, (x: Book) => Matches(choice, term, x));
  }

  /** The case of the search term does not matter, for every choice: the term
      typed in small letters or in capitals finds the same books. */
  lemma SearchIgnoresTermCase(bs: seq<Book>, choice: string, term: string)
    ensures Search(bs, choice, Lower(term)) == Search(bs, choice, term)
    ensures Search(bs, choice, Upper(term)) == Search(bs, choice, term)
  {
    LowerIdempotent(term);
    LowerUpper(term);
    FilterCongruent(bs, (b: Book) => Matches(choice, Lower(term), b), (b: Book) => Matches(choice, term, b));
    FilterCongruent(bs, (b: Book) => Matches(choice, Upper(term), b), (b: Book) => Matches(choice, term, b));
  }

  /** The case of the title or author does not matter either. */
  lemma MatchIgnoresFieldCase(term: string, b: Book)
    ensures Matches("1", term, b.(title := Lower(b.title))) == Matches("1", term, b)
    ensures Matches("2", term, b.(author := Lower(b.author))) == Matches("2", term, b)
    ensures Matches("1", term, b.(title := Upper(b.title))) == Matches("1", term, b)
    ensures Matches("2", term, b.(author := Upper(b.author))) == Matches("2", term, b)
  {
    LowerIdempotent(b.title);
    LowerIdempotent(b.author);
    LowerUpper(b.title);
    LowerUpper(b.author);
  }

  /** A book is found by any part of its title or author, typed in any case. */
  lemma FoundByPartOfField(b: Book, term: string, i: nat, j: nat)
    ensures i <= j <= |b.title| && Lower(term) == Lower(b.title[i..j]) ==> Matches("1", term, b)
    ensures i <= j <= |b.author| && Lower(term) == Lower(b.author[i..j]) ==> Matches("2", term, b)
  {
    if i <= j <= |b.title| {
      FoundByPart(b.title, i, j);
    }
    if i <= j <= |b.author| {
      FoundByPart(b.author, i, j);
    }
  }

  lemma FoundByPart(s: string, i: nat, j: nat)
    requires i <= j <= |s|
    ensures Contains(Lower(s[i..j]), Lower(s))
  {
    ContainsSlice(s, i, j);
    ContainsLower(s[i..j], s);
  }

  /** A year with no upper-case letter is found by any part of itself. */
  lemma FoundByPartOfYear(b: Book, i: nat, j: nat)
    requires i <= j <= |b.year|
    requires forall k :: 0 <= k < |b.year| ==> !IsUpper(b.year[k])
    ensures Matches("3", b.year[i..j], b)
  {
    FoundByPart(b.year, i, j);
    assert Lower(b.year) == b.year;
  }

  /** The year is not lower-cased, so a year written with an upper-case letter is
      not found by itself: "X" is lowered to "x", which "X" does not contain. */
  lemma YearSearchIsCaseSensitive()
    ensures !Matches("3", "X", Book("id", "title", "author", "X"))
  {
  }

  // ---------------------------------------------------------------------------
  // The library object
  // ---------------------------------------------------------------------------

  /** What `update_status` reports. */
  datatype UpdateOutcome = Updated | AlreadySet | NotFound

  const DefaultFilename: string := "library.json"

  class Library {
    /** Name of the backing file; fixed for the object's lifetime. */
    const filename: string
    /** The books, in insertion order. */
    var books: seq<Book>
    /** The records the backing file holds, or None while it does not exist. */
    ghost var file: Option<seq<Record>>

    /** The backing file loads back exactly the books in memory. */
    ghost predicate Synced()
      reads this
    {
      LoadBooks(file) == Some(books)
    }

    /** A library whose books were loaded from `file`. */
    constructor (filename: string, file: Option<seq<Record>>, loaded: seq<Book>)
      requires LoadBooks(file) == Some(loaded)
      ensures this.filename == filename && this.file == file && books == loaded
      ensures Synced()
    {
      this.filename := filename;
      this.file := file;
      books := loaded;
    }

    /** `Library(filename)`: load the books from the file's records (`file`);
        None when a record cannot be turned into a book. */
    static method Open(file: Option<seq<Record>>, filename: string := DefaultFilename)
      returns (r: Option<Library>)
      ensures r.None? <==> LoadBooks(file).None?
      ensures r.Some? ==> fresh(r.value) && r.value.filename == filename &&
                          r.value.file == file && r.value.books == LoadBooks(file).value &&
                          r.value.Synced()
    {
      var loaded := LoadBooks(file);
      if loaded.None? {
        return None;
      }
      var lib := new Library(filename, file, loaded.value);
      r := Some(lib);
    }

    /** `save_books`: overwrite the file with every book, in order. */
    method SaveBooks()
      modifies this`file
      ensures file == Some(Encode(books))
      ensures Synced()
    {
      file := Some(Encode(books));
      LoadAfterSave(books);
    }

    /** `add_book`: append one book, then save. */
    method AddBook(bookId: string, title: string, author: string, year: string, status: string := Available)
      modifies this
      ensures books == old(books) + [Book(bookId, title, author, year, status)]
      ensures file == Some(Encode(books)) && Synced()
    {
      var book := Book(bookId, title, author, year, status);
      books := books + [book];
      SaveBooks();
    }

    /** `remove_book`: when some book has the id, drop every such book and save;
        otherwise change nothing. Returns whether a book was found. */
    method RemoveBook(bookId: string) returns (found: bool)
      modifies this
      ensures found == HasId(old(books), bookId)
      ensures found ==> books == WithoutId(old(books), bookId) && file == Some(Encode(books)) && Synced()
      ensures !found ==> books == old(books) && file == old(file)
      ensures !HasId(books, bookId)
    {
      found := HasId(books, bookId);
      if found {
        books := WithoutId(books, bookId);
        SaveBooks();
      }
    }

    /** `find_book` once the menu choice and the search term have been read:
        the books that answer the search, in library order. */
    method FindBook(choice: string, term: string) returns (results: seq<Book>)
      ensures results == Search(books, choice, term)
    {
      results := [];
      if choice == "1" {
        results := Filter(books, (b: Book) => Contains(Lower(term), Lower(b.title)));
      } else if choice == "2" {
        results := Filter(books, (b: Book) => Contains(Lower(term), Lower(b.author)));
      } else if choice == "3" {
        results := Filter(books, (b: Book) => Contains(Lower(term), b.year));
      }
      ghost var spec := (b: Book) => Matches(choice, term, b);
      if choice == "1" {
        FilterCongruent(books, (b: Book) => Contains(Lower(term), Lower(b.title)), spec);
      } else if choice == "2" {
        FilterCongruent(books, (b: Book) => Contains(Lower(term), Lower(b.author)), spec);
      } else if choice == "3" {
        FilterCongruent(books, (b: Book) => Contains(Lower(term), b.year), spec);
      } else {
        SearchUnknownChoice(books, choice, term);
      }
    }

    /** `update_status`: scan for the first book with the id; once found, set its
        status if it differs, save in either case, and stop. A missing id changes
        nothing and saves nothing. */
    method UpdateStatus(bookId: string, newStatus: string) returns (outcome: UpdateOutcome)
      modifies this
      ensures outcome == NotFound <==> !HasId(old(books), bookId)
      ensures outcome == NotFound ==> books == old(books) && file == old(file)
      ensures outcome != NotFound ==> books == SetStatus(old(books), bookId, newStatus) &&
                                      file == Some(Encode(books)) && Synced()
      ensures outcome == AlreadySet <==>
                HasId(old(books), bookId) && old(books)[FirstIndex(old(books), bookId)].status == newStatus
      ensures old(Synced()) ==> Synced()
    {
      var i := 0;
      while i < |books|
        invariant 0 <= i <= |books|
        invariant books == old(books) && file == old(file)
        invariant forall j :: 0 <= j < i ==> books[j].bookId != bookId
      {
        if books[i].bookId == bookId {
          assert FirstIndex(books, bookId) == i;
          if books[i].status != newStatus {
            books := books[i := books[i].(status := newStatus)];
            outcome := Updated;
          } else {
            outcome := AlreadySet;
          }
          SaveBooks();
          return;
        }
        i := i + 1;
      }
      outcome := NotFound;
    }
  }

  /** Searching the two-book list by title for "foo" finds only "Foo". */
  lemma ScenarioSearch(a: Book, b: Book)
    requires a.title == "Foo" && b.title == "Bar"
    ensures Search([a, b], "1", "foo") == [a]
  {
    assert Lower("foo") == "foo" && Lower("Foo") == "foo" && Lower("Bar") == "bar";
    assert "foo"[0] != "bar"[0];
    assert Search([a], "1", "foo") == [a];
    assert Search([b], "1", "foo") == [];
    SearchAppend([a], [b], "1", "foo");
    assert [a] + [b] == [a, b];
  }

  /** A library holding "Foo" (id A) and then "Bar" (id B), both available. */
  method TwoBooks() returns (lib: Library, a: Book, b: Book)
    ensures fresh(lib) && lib.books == [a, b] && lib.Synced()
    ensures a == Book("A", "Foo", "Smith", "1979") && b == Book("B", "Bar", "Jones", "1973")
  {
    a := Book("A", "Foo", "Smith", "1979");
    b := Book("B", "Bar", "Jones", "1973");
    lib := new Library(DefaultFilename, None, []);
    lib.AddBook("A", "Foo", "Smith", "1979");
    lib.AddBook("B", "Bar", "Jones", "1973");
  }

  /** The two-book walk-through, first part: a title search for "foo". */
  method ScenarioFind()
  {
    var lib, a, b := TwoBooks();
    var found := lib.FindBook("1", "foo");
    ScenarioSearch(a, b);
    assert found == [a];
  }

  /** The two-book walk-through, second part: check out A. */
  method ScenarioUpdate() returns (lib: Library, a': Book, b: Book)
    ensures fresh(lib) && lib.books == [a', b] && lib.Synced()
    ensures a' == Book("A", "Foo", "Smith", "1979", CheckedOut) && b.bookId == "B"
  {
    var a;
    lib, a, b := TwoBooks();
    a' := a.(status := CheckedOut);
    assert HasId([a, b], "A") && FirstIndex([a, b], "A") == 0 by {
      assert [a, b][0].bookId == "A";
    }
    var outcome := lib.UpdateStatus("A", CheckedOut);
    assert outcome == Updated;
  }

  /** Removing the second of two ids leaves the first record alone. */
  lemma RemoveSecond(a: Book, b: Book)
    requires a.bookId == "A" && b.bookId == "B"
    ensures HasId([a, b], "B") && WithoutId([a, b], "B") == [a]
  {
    assert [a, b][1].bookId == "B";
    WithoutIdAppend([a], [b], "B");
    assert [a] + [b] == [a, b];
  }

  /** The two-book walk-through, third part: remove B. */
  method ScenarioRemove() returns (lib: Library, a': Book)
    ensures fresh(lib) && lib.books == [a'] && lib.Synced() && a'.bookId == "A"
  {
    var b;
    lib, a', b := ScenarioUpdate();
    RemoveSecond(a', b);
    var removed := lib.RemoveBook("B");
    assert removed;
  }

  /** The two-book walk-through, last part: updating a missing id reports it. */
  method ScenarioMissing()
  {
    var lib, a' := ScenarioRemove();
    var missing := lib.UpdateStatus("C", Available);
    assert missing == NotFound && lib.books == [a'] && lib.Synced();
  }
}
