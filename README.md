# Library manager: the book store, in Dafny

This project models the `Library` record store of a console library manager.
The store keeps an ordered list of books. Each book has an id, title, author,
year and status. The store mirrors the list to a JSON file. It has four
operations:

- add a book;
- remove every book with a given id;
- search by title, by author or by year;
- set the status of the first book with a given id.

Each operation that adds a book, or finds the book it was asked for, rewrites
the whole file.

Files and modules:

- `text.dfy`, module `Text`: lower-casing (`Lower`) and substring containment
  (`Contains`), the two string operations the search uses, and upper-casing
  (`Upper`) as the independent partner that shows `Lower` folds case.
- `filters.dfy`, module `Filters`: `Filter`, the order-preserving list
  comprehension, with its laws.
- `books.dfy`, module `Books`: the `Book` record, its default status, its
  dictionary form (`Record`), and loading a file's records back into books.
- `library.dfy`, module `LibraryManage`: the pure specifications of removal,
  status update and search, and the `Library` class.

`Library` holds `books: seq<Book>` and a ghost field `file`. That field holds
the records the backing file contains, or `None` while no file exists. Saving
sets `file` to the encoding of `books`. The predicate `Synced()` says that
loading `file` gives back exactly `books`. Every save establishes it, and an
operation that does not save keeps it. The search takes the menu choice and
the term as arguments instead of reading them from the console.

Three behaviours of the code the model keeps:

- `remove_book` drops every record with the id, not only the first.
- A status is any string, not one of two values. The menu passes the empty
  string when the user picks neither status.
- A year search lower-cases the term but not the year (`YearSearchIsCaseSensitive`).

## Model

| member | source | states |
|---|---|---|
| `Text.UpperChar` | library_manage.py:74-77 | the upper-cased character is never a small letter the model knows, and a character that is not one is kept |
| `Text.LowerChar` | library_manage.py:74 | the lowered character is never an upper-case letter the model knows, and a character that is not one is kept; a capital becomes a small letter that `UpperChar` sends back to that capital |
| `Text.LowerUpperChar` | library_manage.py:74-77 | a character and its capital lower-case alike, and every small letter has a capital different from itself |
| `Text.Lower` | library_manage.py:74 | `str.lower()` keeps the length, lowers each character in place, and leaves no upper-case letter |
| `Text.Upper` | library_manage.py:74-77 | upper-casing keeps the length and upper-cases each character in place |
| `Text.LowerUpper` | library_manage.py:74-77 | upper-casing a string first does not change its lower-cased form, so two spellings of a word that differ only in case lower-case to one string |
| `Text.LowerIdempotent` | library_manage.py:74 | lower-casing twice equals lower-casing once |
| `Text.Contains` | library_manage.py:74-80 | `needle in hay` never holds for a needle longer than the haystack, and always holds for the empty needle |
| `Text.ContainsIffOccurs` | library_manage.py:74 | `needle in hay` holds exactly when the needle occurs at some position of the haystack (the empty string occurs everywhere) |
| `Text.ContainsLower` | library_manage.py:74-77 | a case-sensitive match is also a match after lower-casing both sides |
| `Filters.Filter` | library_manage.py:54 | a list comprehension keeps only elements of the input that pass the test; it keeps every passing element; it is no longer than the input; it returns the input when every element passes |
| `Filters.FilterAppend` | library_manage.py:54 | filtering a concatenation is the concatenation of the filtered parts, so order is preserved |
| `Filters.FilterComplementLength` | library_manage.py:54 | a filter and its complement together keep every element exactly once in count |
| `Filters.FilterIdempotent` | library_manage.py:54 | filtering twice with one test equals filtering once |
| `Books.FromRecord` | library_manage.py:11-16 | `Book(**d)` succeeds exactly when the dictionary has the four required field names and no unknown one; each field of the book then holds the dictionary's value under that name; a missing status becomes "В наличии" |
| `Books.Encode` | library_manage.py:41 | `[book.__dict__ for book in books]` has one dictionary per book, each with exactly the five field names, and `Book(**d)` rebuilds the book it came from |
| `Books.ToRecord` | library_manage.py:41 | `book.__dict__` has exactly the five field names, and `Book(**d)` rebuilds the same book from it |
| `Books.RecordRoundTrip` | library_manage.py:32 | a dictionary with exactly the five field names is accepted by `Book(**d)`, and its `__dict__` is that dictionary again |
| `Books.RecordStatusDefault` | library_manage.py:11 | a dictionary with only the four required fields gives a book whose status is "В наличии" |
| `Books.Decode` | library_manage.py:32 | `[Book(**d) for d in rs]` succeeds exactly when every record is accepted; it then has one book per record, each built from its record |
| `Books.DecodeEncode` | library_manage.py:38-41 | decoding the records `save_books` writes gives back the same books in the same order |
| `Books.EncodeDecode` | library_manage.py:28-41 | re-encoding what was loaded reproduces the records, provided each record named its status |
| `Books.LoadBooks` | library_manage.py:28-35 | a missing file loads as an empty list; otherwise loading succeeds exactly when every record is accepted |
| `Books.LoadAfterSave` | library_manage.py:28-41 | loading a saved file gives back the saved list |
| `LibraryManage.HasIdIffWithId` | library_manage.py:52 | `any(book.book_id == id ...)` holds exactly when some record carries the id |
| `LibraryManage.WithoutId` | library_manage.py:54 | the filter leaves no record with the id, keeps each record with another id, adds nothing, shrinks the list by the number of records with the id, and leaves a list without the id unchanged |
| `LibraryManage.WithoutIdAppend` | library_manage.py:54 | removal distributes over concatenation, so the remaining records keep their order |
| `LibraryManage.AddThenRemove` | library_manage.py:44-55 | adding a book under a fresh id and then removing that id restores the list |
| `LibraryManage.AddDuplicateThenRemove` | library_manage.py:44-55 | add does not check for duplicate ids, so removing a duplicated id also drops the older record |
| `LibraryManage.WithoutIdIdempotent` | library_manage.py:51-59 | removing an id a second time changes nothing |
| `LibraryManage.FirstIndex` | library_manage.py:100-101 | the loop stops at an index whose record has the id, and no earlier record has it |
| `LibraryManage.SetStatus` | library_manage.py:99-104 | the update keeps the length; it changes nothing when the id is absent; otherwise it replaces only the status of the first record with the id |
| `LibraryManage.SetSameStatus` | library_manage.py:103-108 | setting the status a record already has leaves the list unchanged |
| `LibraryManage.SetStatusKeepsIds` | library_manage.py:99-104 | the update changes no id, so the same record stays the first with its id |
| `LibraryManage.SetStatusIdempotent` | library_manage.py:99-110 | setting the same status twice equals setting it once |
| `LibraryManage.Matches` | library_manage.py:70-80 | a book can match only under the choices "1", "2" and "3", and never when the lower-cased term is longer than the searched field |
| `LibraryManage.MatchesIffOccurs` | library_manage.py:70-80 | a book matches exactly when the choice is "1", "2" or "3" and the lower-cased term occurs at some position of the lower-cased title, the lower-cased author, or the year as written |
| `LibraryManage.Search` | library_manage.py:70-82 | the result holds only books of the list that match, and every matching book of the list |
| `LibraryManage.SearchUnknownChoice` | library_manage.py:70-82 | a choice other than "1", "2" or "3" finds nothing |
| `LibraryManage.SearchAppend` | library_manage.py:72-80 | searching a concatenation is the concatenation of the searches, so results are in library order |
| `LibraryManage.SearchIgnoresTermCase` | library_manage.py:72-80 | the result is the same when the search term is lower-cased or upper-cased first, for every choice |
| `LibraryManage.MatchIgnoresFieldCase` | library_manage.py:72-77 | a title or author search gives the same answer when the field is lower-cased or upper-cased first |
| `LibraryManage.FoundByPartOfField` | library_manage.py:72-77 | a book is found by any part of its title or author, typed in any case |
| `LibraryManage.FoundByPartOfYear` | library_manage.py:78-80 | a year with no upper-case letter is found by any part of itself |
| `LibraryManage.YearSearchIsCaseSensitive` | library_manage.py:80 | the year is not lower-cased, so the year "X" is not found by the term "X" |
| `LibraryManage.ScenarioSearch` | library_manage.py:72-74 | in the list "Foo", "Bar", a title search for "foo" finds only "Foo" |
| `LibraryManage.Library.constructor` | library_manage.py:23-25 | a library built from a file whose records load to a list holds that list, and memory and file are in sync |
| `LibraryManage.Library.Open` | library_manage.py:23-35 | construction fails exactly when loading fails; otherwise the new library holds the loaded list, keeps the file and name, and is in sync |
| `LibraryManage.Library.SaveBooks` | library_manage.py:38-41 | the file afterwards holds the encoding of the current list, and loading it gives that list back |
| `LibraryManage.Library.AddBook` | library_manage.py:44-47 | the list gains exactly the new book at its end, with status "В наличии" unless another is given; then it is saved |
| `LibraryManage.Library.RemoveBook` | library_manage.py:51-59 | the result reports whether the id was present; if so, every record with it is filtered out in order and the list is saved; if not, list and file are untouched; no record with the id remains |
| `LibraryManage.Library.FindBook` | library_manage.py:62-82 | the three branches of the comprehension together give exactly `Search`: the matching books, in library order, and none for an unrecognised choice; nothing is modified |
| `LibraryManage.Library.UpdateStatus` | library_manage.py:99-112 | a missing id gives NotFound and leaves list and file untouched; a present id updates the status of the first record with it, and the list is saved even when the status was already equal (AlreadySet); sync is kept |

## Left out

- JSON text, `open`, `json.load` and `json.dump` (library_manage.py:30-41) are I/O and library calls. The file is modelled as its list of decoded records. A record is a dictionary from field names to strings.
- Saving is assumed to succeed. An `IOError` while writing is not modelled, and neither is any load failure other than a missing file or a record that `Book(**d)` refuses.
- JSON values that are not strings, or a file that is not a list of objects, are not modelled. The tests pass integers as id and year, which Python's dynamic typing allows.
- `Text.Lower`: lower-cases only ASCII A-Z and the Cyrillic letters U+0400 to U+042F. Python's `str.lower()` covers all of Unicode.
- `Text.Upper`: upper-cases only the small letters those capitals map to (a-z and U+0430 to U+045F). It exists as the partner of `Lower`; the source never upper-cases.
- Aliasing of `Book` objects is not modelled. In Python, `update_status` changes a shared object, so a list returned earlier by `find_book` sees the new status as well. Here books are values.
- `display_books` (library_manage.py:85-96) is table rendering, and every `print` message is console output. The `RemoveBook` flag and the `UpdateStatus` outcome stand in for the messages.
- The `main()` menu loop, the `input()` prompts and `uuid.uuid4()` (library_manage.py:116-174) are interactive I/O and randomness. The final save on exit is `SaveBooks`.
- library_fill.py fills the file with random data and is not part of this model.
