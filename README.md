# Book catalog, modelled in Dafny

This project models the catalog engine of a small library application, in the three snapshots the
repository keeps of it:

- **StepOne** (`step_one.dfy`): the first `Book` class. A borrowed flag changes in place, borrowing
  and returning are guarded, and `display_info` renders the book.
- **ConsoleLibrary** (`console_library.dfy`): the console catalog. `Book`, `EBook` and `AudioBook`
  become one class with a `kind`. A `Library` keeps its books in insertion order with unique ISBNs.
  It adds and removes books, looks them up by title, author and ISBN, and runs the combined
  `find_book` search.
- **WebLibrary** (`web_library.dfy`): the persisted catalog. The same operations write through to
  a `books` table keyed by ISBN. It adds `add_book_by_isbn`, which fetches metadata first. The row
  codec (`_row_to_book` and the column choice in `save_book_to_db`) is a pair of functions with
  round-trip lemmas.
- **Manager** (`web_manager.dfy`): the manager layer over the persisted catalog. It covers the
  listing, search, statistics and book dictionaries, plus the mapping from the library's
  True/False/None answers to `success`/`message` responses.
- **Lending** (`lending.dfy`): the borrow/return state machine that all three `Book` classes
  implement.
- **Common** (`common.dfy`): shared values. These are Python's `str.strip` and `str(int)`, the
  first-match scan, and sequence facts.

How the model treats the database and the network:

- Each database write succeeds or fails. The method's `dbOk` parameter says which.
- The table (`map<string, Columns>` keyed by ISBN) and the list of calls made are ghost fields.
  Contracts can therefore say what was written and whether anything was fetched at all.
- `NoStrayRows` survives every operation; `InSync` survives every operation except a borrow or
  return whose write fails. `InSync` says memory and table agree on every flag. `NoStrayRows` says
  the table has no row beside the books' rows.
- That failed write is the only way to break `InSync`: in `borrow_book` and `return_book`, the
  in-memory flag is flipped before the write and stays flipped.
- The metadata fetch is a parameter `fetched: Option<Metadata>`. It is constrained by what
  `fetch_book_from_api` guarantees: a non-empty title, a non-empty author and the requested ISBN.

In `add_book`, `remove_book` and `add_book_by_isbn` the code writes first and changes memory only
on success. So a failed insert or delete leaves the books as they were:

- a failed insert returns False;
- a failed delete returns None.

Only `borrow_book` and `return_book` keep their change after a failed write, and they then return
None.

The manager reports some failures under messages that name a different cause:

- A failed `add_book` is reported as a duplicate ISBN.
- A failed save after a fetch is reported as "not found on OpenLibrary".
- A failed delete is reported as "book not found".

The model keeps these messages as the code has them.

## Model

| member | source | states |
|---|---|---|
| Lending.Borrow | src/library.py:12-16 | borrowing is accepted exactly when the book is available, always leaves it borrowed, and a rejected borrow leaves the flag unchanged |
| Lending.Return | src/library.py:18-22 | returning is accepted exactly when the book is borrowed, always leaves it available, and a rejected return leaves the flag unchanged |
| Lending.ReturnUndoesBorrow | src/step-1/library.py:8-18 | an accepted borrow followed by a return is accepted and restores the original flag |
| Lending.SecondBorrowRejected | src/step-1/library.py:8-12 | a second borrow without a return in between is rejected |
| Lending.BorrowReturnBorrow | src/step-1/library.py:8-18 | from an available book, borrow, return and borrow are all accepted and it ends borrowed |
| StepOne.Book.constructor | src/step-1/library.py:2-6 | a new book carries the given fields and is not borrowed |
| StepOne.Book.BorrowBook | src/step-1/library.py:8-12 | an available book becomes borrowed and True is returned; a borrowed one raises "… is already borrowed." and stays borrowed |
| StepOne.Book.ReturnBook | src/step-1/library.py:14-18 | a borrowed book becomes available and True is returned; an available one raises "… was not borrowed." and stays available |
| StepOne.Book.DisplayInfo | src/step-1/library.py:20-21 | the rendering starts with the title and ends with the ISBN and ")", and its length is the field lengths plus the fixed text |
| Common.StripEmpty | src/library.py:103-122 | `s.strip()` is empty (falsy) exactly when every character of `s` is Python white space |
| Common.StripTrims | src/library.py:103-122 | `s.strip()` is a slice of `s` with only white space before and after it, and it neither starts nor ends with white space |
| Common.Lower | src/library.py:87 | a stand-in for `str.lower` that folds only A-Z; unlike `str.lower` it always keeps the argument's length |
| Common.IntToString | src/web/library.py:49-50 | `str(n)` is non-empty, starts with "-" exactly when `n` is negative, and is digits after that |
| Common.FirstMatch | src/library.py:85-101 | the result is the first position whose key matches the query, and None exactly when no key matches |
| Common.RemoveAt | src/library.py:64-72 | dropping one position keeps every other element, in order |
| Common.IndexOf | src/library.py:64-72 | `list.remove(book)` removes the first element identical to `book` |
| Common.IntToStringRoundTrip | src/web/library.py:44-50 | the decimal rendering of the audio book's minutes reads back as the same integer |
| Common.CountTrue | src/web/web_manager.py:184-192 | the number of set flags is at most the number of books |
| Common.CountTrueMultiset | src/web/web_manager.py:184-192 | the count of borrowed books equals the multiplicity of `true` among the flags |
| Common.CountTrueSet | src/web/web_manager.py:184-192 | setting one cleared flag raises the borrowed count by exactly one |
| Common.CountTrueClear | src/web/web_manager.py:184-192 | clearing one set flag lowers the borrowed count by exactly one |
| ConsoleLibrary.Book.constructor | src/library.py:5-10 | a new plain book carries the given fields and is not borrowed |
| ConsoleLibrary.Book.EBook | src/library.py:30-34 | a new e-book carries its format and size and is not borrowed |
| ConsoleLibrary.Book.AudioBook | src/library.py:39-42 | a new audio book carries its duration in hours and is not borrowed |
| ConsoleLibrary.Book.BorrowBook | src/library.py:12-16 | the flag follows the borrow transition; True on an available book, otherwise "… is already borrowed." is raised |
| ConsoleLibrary.Book.ReturnBook | src/library.py:18-22 | the flag follows the return transition; True on a borrowed book, otherwise "… was not borrowed." is raised |
| ConsoleLibrary.Book.BaseInfo | src/library.py:24-25 | the rendering starts with the title, ends with the ISBN and ")", and has the field lengths plus the fixed text |
| ConsoleLibrary.Book.DisplayInfo | src/library.py:24-45 | the base rendering is a prefix; a plain book adds nothing, an e-book adds its format and size, an audio book its duration in hours |
| ConsoleLibrary.AddThenRemove | src/library.py:53-72 | after adding a book with a new ISBN, removing that ISBN finds it at the end and gives back the original books |
| ConsoleLibrary.FindBookIndex | src/library.py:103-122 | the position `find_book` settles on lies within the books |
| ConsoleLibrary.FindBookMisses | src/library.py:103-122 | `find_book` finds nothing exactly when each criterion is blank or matches no book |
| ConsoleLibrary.FindBookMatches | src/library.py:103-122 | a book that `find_book` returns matches some criterion that is not blank |
| ConsoleLibrary.FindBookTitleFirst | src/library.py:103-108 | when a non-blank title names a book, the first book with that title is returned, whatever the author and ISBN say |
| ConsoleLibrary.Library.constructor | src/library.py:49-51 | a new library has the given name and no books |
| ConsoleLibrary.Library.TotalBooks | src/library.py:124-126 | the total is the number of books |
| ConsoleLibrary.Library.FindBookByTitle | src/library.py:85-89 | the first book whose lower-cased title equals the lower-cased query, or None |
| ConsoleLibrary.Library.FindBookByIsbn | src/library.py:91-95 | the first book whose ISBN equals the query, or None |
| ConsoleLibrary.Library.FindBookByAuthor | src/library.py:97-101 | the first book whose lower-cased author equals the lower-cased query, or None |
| ConsoleLibrary.Library.FindBook | src/library.py:103-122 | the book at the position chosen by title, then author, then ISBN, each consulted only when its stripped text is non-empty, or None |
| ConsoleLibrary.Library.AddBook | src/library.py:53-62 | a duplicate ISBN is refused and nothing changes; otherwise the book is appended and True returned; ISBNs stay unique |
| ConsoleLibrary.Library.RemoveBook | src/library.py:64-72 | an absent ISBN gives False and nothing changes; otherwise the book with that ISBN is taken out and the others keep their order; no book with that ISBN remains |
| WebLibrary.EncodeColumns | src/web/library.py:132-154 | the row is tagged "Book", "EBook" or "AudioBook" by class, only that class's fields are non-NULL, and the flag is stored as 0/1 |
| WebLibrary.DecodeRow | src/web/library.py:103-129 | the class is chosen by `row[5]`; missing format, size and duration become "", 0.0 and 0; the flag is `bool(row[4])` |
| WebLibrary.DecodeEncode | src/web/library.py:103-154 | loading a saved book gives back the same class, fields and flag, whatever id was assigned |
| WebLibrary.EncodeDecode | src/web/library.py:103-154 | saving a loaded row that the save step could have written reproduces its columns |
| WebLibrary.UnknownTagIsPlain | src/web/library.py:121-126 | a row with any other tag loads as a plain book |
| WebLibrary.EncodeFlag | src/web/library.py:164-178 | a book's row differs from the row of the same book with another flag only in `is_borrowed` |
| WebLibrary.ApplyEffect | src/web/library.py:151-186 | an INSERT stores its row under its ISBN, an UPDATE rewrites only `is_borrowed` of an existing row, a DELETE drops its ISBN, a fetch changes nothing, and no call touches any other ISBN's row |
| WebLibrary.FetchOutcome | src/web/library.py:341-396 | a fetch gives a book only when the request answered 200 and both the title and the first author's name are non-empty; what it gives carries them and the requested ISBN |
| WebLibrary.Book.constructor | src/web/library.py:10-15 | a new plain book carries the given fields and is not borrowed |
| WebLibrary.Book.EBook | src/web/library.py:35-39 | a new e-book carries its format and size and is not borrowed |
| WebLibrary.Book.AudioBook | src/web/library.py:44-47 | a new audio book carries its duration in minutes and is not borrowed |
| WebLibrary.Book.BorrowBook | src/web/library.py:17-21 | the flag follows the borrow transition; True on an available book, otherwise "… zaten ödünç verildi." is raised |
| WebLibrary.Book.ReturnBook | src/web/library.py:23-27 | the flag follows the return transition; True on a borrowed book, otherwise "… ödünç verilmedi." is raised |
| WebLibrary.Book.BaseInfo | src/web/library.py:29-30 | the rendering starts with the title, ends with the ISBN and ")", and has the field lengths plus the fixed text |
| WebLibrary.Book.DisplayInfo | src/web/library.py:29-50 | the base rendering is a prefix; a plain book adds nothing, an e-book adds its format and size, an audio book its duration in minutes |
| WebLibrary.DurationReadsBack | src/web/library.py:49-50 | the text between " - Süre: " and " dakika" in an audio book's rendering parses back to its minutes |
| WebLibrary.Flags | src/web/library.py:246-276 | the borrowed flags of the books, one per book, in order |
| WebLibrary.RowsAfterUpdate | src/web/library.py:164-178 | an UPDATE of one book's flag keeps every row matching its book |
| WebLibrary.FlagWritten | src/web/library.py:164-178 | an UPDATE writes exactly the new flag of that book and leaves the other stored flags |
| WebLibrary.FlagNotWritten | src/web/library.py:164-178 | if a changed flag is not written, the table no longer records the in-memory flags |
| WebLibrary.UpdateOutcome | src/web/library.py:164-178 | whether or not the UPDATE happened, rows keep matching and keys stay; stored flags stay in sync exactly when the write happened or nothing changed |
| WebLibrary.AppendOutcome | src/web/library.py:220-232 | inserting a new book's row and appending the book keeps ISBNs unique, rows matching, no stray rows and the flags in sync |
| WebLibrary.RemoveOutcome | src/web/library.py:234-244 | deleting a book's row and dropping the book keeps ISBNs unique, rows matching, no stray rows and the flags in sync, and the ISBN is gone |
| WebLibrary.RemoveKeepsRows | src/web/library.py:181-193 | a DELETE by one ISBN leaves the rows of all other books as they were |
| WebLibrary.RemoveKeepsFlags | src/web/library.py:181-193 | a DELETE by one ISBN leaves the other books' stored flags in sync |
| WebLibrary.Library.InSyncRows | src/web/library.py:132-178 | memory and table are in sync exactly when every book's row is what saving that book would write |
| WebLibrary.Library.constructor | src/web/library.py:54-60 | a new library over an empty database has no books, an empty table and is in sync |
| WebLibrary.Library.TotalBooks | src/web/library.py:339-341 | the total is the number of books |
| WebLibrary.Library.FindBookByTitle | src/web/library.py:289-293 | the first book whose lower-cased title equals the lower-cased query, or None |
| WebLibrary.Library.FindBookByIsbn | src/web/library.py:295-299 | the first book whose ISBN equals the query, or None |
| WebLibrary.Library.FindBookByAuthor | src/web/library.py:301-305 | the first book whose lower-cased author equals the lower-cased query, or None |
| WebLibrary.Library.AddBook | src/web/library.py:220-232 | a duplicate ISBN gives False with no database call; otherwise the row is inserted and the book appended only if the insert succeeded; sync is kept |
| WebLibrary.Library.Store | src/web/library.py:225-232 | `save_book_to_db` then append: one INSERT of the book's row, and the book is appended exactly when it succeeded |
| WebLibrary.Library.RemoveBook | src/web/library.py:234-244 | an absent ISBN gives False with no call; otherwise one DELETE, then True and the book removed if it succeeded, or None and nothing changed |
| WebLibrary.Library.RemoveFound | src/web/library.py:236-242 | past the lookup: one DELETE, True and the book gone if it succeeded, None and no change otherwise |
| WebLibrary.Library.Discard | src/web/library.py:238-241 | after a successful delete the row leaves the table and the book at the found position leaves the list |
| WebLibrary.Library.BorrowBook | src/web/library.py:246-260 | an absent ISBN or a borrowed book gives False and changes nothing; otherwise the flag is set, one UPDATE writing 1 is made, True if it succeeded and None if not; sync survives exactly when the result is not None |
| WebLibrary.Library.BorrowFound | src/web/library.py:249-257 | past the lookup: False without a call when already borrowed; otherwise flag set, one UPDATE, True or None by its outcome |
| WebLibrary.Library.ReturnBook | src/web/library.py:262-276 | an absent ISBN or an available book gives False and changes nothing; otherwise the flag is cleared, one UPDATE writing 0 is made, True if it succeeded and None if not; sync survives exactly when the result is not None |
| WebLibrary.Library.ReturnFound | src/web/library.py:265-273 | past the lookup: False without a call when not borrowed; otherwise flag cleared, one UPDATE, True or None by its outcome |
| WebLibrary.Library.UpdateBookInDb | src/web/library.py:164-178 | one UPDATE of the book's current flag as 0/1; memory and table agree afterwards exactly when it succeeded or the flag had not changed |
| WebLibrary.Library.AddBookByIsbn | src/web/library.py:408-429 | an existing ISBN gives False before any fetch; a failed fetch gives False with only the fetch made; otherwise a plain available book with the fetched title and author and the requested ISBN is inserted and appended if the insert succeeded |
| WebLibrary.Library.FetchAndStore | src/web/library.py:416-429 | past the duplicate check: one fetch, then nothing on a miss, or the build-and-store step on a hit |
| WebLibrary.Library.StoreNew | src/web/library.py:422-429 | a fresh plain, available book with the given fields is inserted and appended if the insert succeeded |
| WebLibrary.Library.FlagChanged | src/web/library.py:246-276 | after one book's flag changed, the flags are the old ones with that position replaced |
| Manager.BookToDictKeepsData | src/web/web_manager.py:195-202 | two book dictionaries are equal exactly when the books agree on everything but their class and the years agree |
| Manager.BookToDict | src/web/web_manager.py:195-202 | each key carries the book's field of that name, and the year is the one passed in |
| Manager.ValidInputBounds | src/web/library.py:440-444 | an input passes exactly when its ISBN has 10 to 13 characters and its year is 1401 to 2030; lengths 9 and 14 and years 1400 and 2031 fail |
| Manager.AllBooks | src/web/web_manager.py:99-100 | one dictionary per book, in library order, without a year |
| Manager.AllBooksIsbns | src/web/web_manager.py:99-100 | the listed dictionaries carry pairwise different ISBNs |
| Manager.SearchIndex | src/web/web_manager.py:103-120 | the position `search_books` settles on lies within the books |
| Manager.SearchMisses | src/web/web_manager.py:103-120 | `search_books` gives None exactly when each criterion is empty or matches no book |
| Manager.SearchMatches | src/web/web_manager.py:103-120 | a book that `search_books` returns matches some non-empty criterion |
| Manager.SearchTitleFirst | src/web/web_manager.py:103-107 | when a non-empty title names a book, the first book with that title is returned, whatever the author and ISBN say |
| Manager.SearchByIsbnAlone | src/web/web_manager.py:114-118 | a search by ISBN alone finds the one book carrying it |
| Manager.StatsOf | src/web/web_manager.py:184-192 | total is the number of books, borrowed and available are non-negative and sum to the total |
| Manager.StatsCountsBorrowed | src/web/web_manager.py:184-192 | borrowed counts the books whose flag is set and available those whose flag is clear |
| Manager.TruesAndFalses | src/web/web_manager.py:184-192 | every flag is counted as either borrowed or available |
| Manager.StatsAfterBorrow | src/web/web_manager.py:184-192 | after a successful borrow one more book is borrowed and one fewer is available |
| Manager.StatsAfterReturn | src/web/web_manager.py:184-192 | after a successful return one fewer book is borrowed and one more is available |
| Manager.WebManager.constructor | src/web/web_manager.py:27-28 | a new manager holds a new, empty library in sync with an empty table |
| Manager.WebManager.GetAllBooks | src/web/web_manager.py:99-100 | one dictionary per book, with that book's ISBN and no year |
| Manager.WebManager.GetStats | src/web/web_manager.py:184-192 | the total is the library's `total_books` and available plus borrowed is the total |
| Manager.WebManager.SearchBooks | src/web/web_manager.py:103-120 | the dictionary of the book at the position chosen by title, then author, then ISBN, each consulted when non-empty, or None |
| Manager.WebManager.AddManualBook | src/web/web_manager.py:38-66 | rejected input fails with the library untouched; a duplicate fails with the library untouched; otherwise one INSERT is made, the table changes only when it succeeded, and success exactly when it did, with the book appended and its dictionary (with the year) returned |
| Manager.WebManager.AddBookByIsbn | src/web/web_manager.py:68-91 | an existing ISBN fails with no call at all; otherwise a fetch is made, followed by one INSERT exactly when it found the book, the table changes only when that insert succeeded, and success exactly when fetch and insert succeeded, with the new book's dictionary returned |
| Manager.WebManager.DescribeAdded | src/web/web_manager.py:80-86 | the looked-up book is the one just appended, so the response carries its dictionary |
| Manager.WebManager.BorrowBook | src/web/web_manager.py:123-141 | success exactly when the book is present, available and the write succeeded; the message then names it; flags, table, calls and sync as in the library |
| Manager.WebManager.ReturnBook | src/web/web_manager.py:144-162 | success exactly when the book is present, borrowed and the write succeeded; the message then names it; flags, table, calls and sync as in the library |
| Manager.WebManager.Announce | src/web/web_manager.py:127-131 | the re-looked-up book is the first with that ISBN, so the message names it |
| Manager.WebManager.RemoveBook | src/web/web_manager.py:164-181 | success exactly when the ISBN is present and the delete succeeded; the book is then gone and the others keep their order; one DELETE is made exactly when the ISBN is present, and the table changes only when it succeeded |

## Left out

- SQLite I/O is not modelled. This covers `init_database`, `load_from_database` and the SQL text.
  A web library starts empty. Each write is a success/failure parameter plus a ghost table with
  the effect of INSERT, UPDATE and DELETE keyed by the UNIQUE ISBN. The order of a reload without
  `ORDER BY` is not modelled.
- The HTTP exchanges of `fetch_book_from_api` are not modelled. `FetchOutcome` takes their
  results (whether the book request answered 200, the `title` entry, the first author's `name`)
  as parameters; a timeout, another status or an exception shows up there as a missing value.
  `AddBookByIsbn` takes the fetch result as a parameter constrained by `FetchContract`, which
  every `FetchOutcome` result meets.
- `WebLibrary.Library.Store`: the insert of a book whose ISBN already has a row replaces it,
  where SQLite's UNIQUE constraint would fail the insert. With `NoStrayRows`, which every
  operation preserves, no such row exists.
- Pydantic validation is reduced to the field constraints, as the predicate `ValidInput`. Missing
  or ill-typed fields are excluded by the input type. The text of a validation failure,
  `_format_validation_errors` and the branches for unexpected exceptions are not modelled.
- `Manager.ValidationFailed` is a placeholder message. `validate_book_data` re-raises
  `ValidationError` from a single string, which pydantic's `ValidationError` does not accept, so
  the code most likely reaches its `except Exception` branch and answers "Unexpected error: …"
  instead (not executed). Either way the answer is a failure with the library untouched, which is
  all `AddManualBook` states about it.
- The FastAPI routes, the menu programs, the interactive `find_book` and `display_books` of the
  web library, and the message display helpers do console or HTTP I/O only, so they are left out.
- Floats (file size, duration in hours) are opaque values carrying their rendering.
  `row[7] or 0.0` maps a NULL to 0.0; a stored -0.0 is not told apart.
- `Common.Lower` folds only A-Z. No proved property depends on the folding itself. Python's
  Unicode-aware `str.lower` is not modelled. The stand-in keeps the length of its argument, where
  `str.lower` need not: `'İ'.lower()` has two characters.
- The `Member` dataclass has no behaviour, so it is left out.
- Concurrent access through the web server is not modelled.
- The printed and logged messages of the library methods are not modelled. The returned values
  and raised messages are.
