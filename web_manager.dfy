/**
 * The manager layer in front of the persisted catalog: it validates input, delegates to the
 * library and turns the library's True/False/None answers into response dictionaries.
 */
module Manager {
  import opened Common
  import opened WebLibrary

  /** The dictionary `_book_to_dict` builds. */
  datatype BookDict = BookDict(title: string, author: string, isbn: string, publicationYear: Option<int>, borrowed: bool)

  /** A response dictionary: `success`, `message` and, after an add, the `book` that was added. */
  datatype Response = Response(success: bool, message: string, book: Option<BookDict>)

  /** The fields `add_manual_book` reads from its input once they have the right types. */
  datatype BookInput = BookInput(title: string, author: string, isbn: string, publicationYear: int)

  /** `PydanticBook`'s field constraints: an ISBN of 10 to 13 characters and a year in (1400, 2030]. */
  predicate ValidInput(input: BookInput)
  {
    10 <= |input.isbn| <= 13 && 1400 < input.publicationYear <= 2030
  }

  /** The bounds are the ones `PydanticBook` declares: both ends of the ISBN range are inclusive, the year's lower end is not. */
  lemma ValidInputBounds(title: string, author: string, isbn: string, year: int)
    ensures ValidInput(BookInput(title, author, isbn, year)) <==> 10 <= |isbn| <= 13 && 1401 <= year <= 2030
    ensures |isbn| == 10 && year == 1401 ==> ValidInput(BookInput(title, author, isbn, year))
    ensures |isbn| == 13 && year == 2030 ==> ValidInput(BookInput(title, author, isbn, year))
    ensures |isbn| == 9 || |isbn| == 14 || year == 1400 || year == 2031 ==> !ValidInput(BookInput(title, author, isbn, year))
  {
  }

  /**
   * Placeholder message for an input the validation rejects. `validate_book_data` means to answer
   * "Validation failed: …", but its re-raise most likely ends in the generic "Unexpected error: …"
   * answer instead; both are failures that leave the library untouched.
   */
  const ValidationFailed := "Validation failed"
  const AddedManually := "Kitap başarıyla eklendi"
  const DuplicateIsbn := "Kitap eklenemedi - ISBN zaten mevcut"
  const AddedByIsbn := "Kitap ISBN ile başarıyla eklendi"
  const NotOnOpenLibrary := "Kitap eklenemedi - ISBN OpenLibrary'de bulunamadı, lütfen manuel ekleme yapın"
  const BorrowRefused := "Kitap ödünç alınamadı - kitap bulunamadı veya zaten ödünç verildi"
  const ReturnRefused := "Kitap iade edilemedi - kitap bulunamadı veya zaten iade edildi"
  const Removed := "Kitap silindi"
  const NotRemoved := "Kitap bulunamadı"

  /** `_book_to_dict(book, publication_year)`. */
  function BookToDict(b: Book, year: Option<int>): (d: BookDict)
    reads b
    ensures d.title == b.title && d.author == b.author && d.isbn == b.isbn && d.borrowed == b.isBorrowed
    ensures d.publicationYear == year
  {
    BookDict(b.title, b.author, b.isbn, year, b.isBorrowed)
  }

  /** The dictionary keeps everything about a book except its class: equal dictionaries mean equal data up to the class. */
  lemma BookToDictKeepsData(b: Book, c: Book, y: Option<int>, z: Option<int>)
    ensures BookToDict(b, y) == BookToDict(c, z) <==>
      b.Data().(kind := PlainBook) == c.Data().(kind := PlainBook) && y == z
  {
  }

  /** `get_all_books`: one dictionary per book, in library order, without a year. */
  function AllBooks(bs: seq<Book>): (r: seq<BookDict>)
    reads bs
    ensures |r| == |bs| && forall i :: 0 <= i < |bs| ==> r[i] == BookToDict(bs[i], None)
  {
    seq(|bs|, i reads bs requires 0 <= i < |bs| => BookToDict(bs[i], None))
  }

  /** The listed ISBNs are the library's, so they are as distinct as the library keeps them. */
  lemma AllBooksIsbns(bs: seq<Book>)
    requires Distinct(Isbns(bs))
    ensures forall i, j :: 0 <= i < j < |bs| ==> AllBooks(bs)[i].isbn != AllBooks(bs)[j].isbn
  {
    forall i, j | 0 <= i < j < |bs|
      ensures AllBooks(bs)[i].isbn != AllBooks(bs)[j].isbn
    {
      assert Isbns(bs)[i] != Isbns(bs)[j];
    }
  }

  /**
   * Where `search_books` looks: title first, then author, then ISBN; a criterion is consulted
   * whenever it is a non-empty string (white space counts), and a miss falls through.
   */
  function SearchIndex(bs: seq<Book>, title: string, author: string, isbn: string): (r: Option<nat>)
    ensures r.Some? ==> r.value < |bs|
  {
    var t := FirstMatch(CaseFolded, Titles(bs), title);
    var a := FirstMatch(CaseFolded, Authors(bs), author);
    var n := FirstMatch(Exact, Isbns(bs), isbn);
    if title != [] && t.Some? then t
    else if author != [] && a.Some? then a
    else if isbn != [] && n.Some? then n
    else None
  }

  /** `search_books` gives None exactly when no consulted criterion matches any book. */
  lemma SearchMisses(bs: seq<Book>, title: string, author: string, isbn: string)
    ensures SearchIndex(bs, title, author, isbn).None? <==>
      && (title == [] || forall i :: 0 <= i < |bs| ==> Lower(bs[i].title) != Lower(title))
      && (author == [] || forall i :: 0 <= i < |bs| ==> Lower(bs[i].author) != Lower(author))
      && (isbn == [] || forall i :: 0 <= i < |bs| ==> bs[i].isbn != isbn)
  {
    assert forall i :: 0 <= i < |bs| ==> Titles(bs)[i] == bs[i].title && Authors(bs)[i] == bs[i].author;
    assert forall i :: 0 <= i < |bs| ==> Isbns(bs)[i] == bs[i].isbn;
  }

  /** A book `search_books` returns matches a criterion that was consulted. */
  lemma SearchMatches(bs: seq<Book>, title: string, author: string, isbn: string)
    ensures var r := SearchIndex(bs, title, author, isbn);
      r.Some? ==>
        || (title != [] && Lower(bs[r.value].title) == Lower(title))
        || (author != [] && Lower(bs[r.value].author) == Lower(author))
        || (isbn != [] && bs[r.value].isbn == isbn)
  {
  }

  /**
   * The title takes precedence: when a non-empty title names some book, `search_books` returns
   * the first such book whatever the author and ISBN say.
   */
  lemma SearchTitleFirst(bs: seq<Book>, title: string, author: string, isbn: string, j: nat)
    requires title != [] && j < |bs| && Lower(bs[j].title) == Lower(title)
    ensures var r := SearchIndex(bs, title, author, isbn);
      r.Some? && r.value <= j && Lower(bs[r.value].title) == Lower(title)
      && forall i :: 0 <= i < r.value ==> Lower(bs[i].title) != Lower(title)
  {
    assert Titles(bs)[j] == bs[j].title;
  }

  /** An ISBN alone finds the one book that carries it, since ISBNs are distinct. */
  lemma SearchByIsbnAlone(bs: seq<Book>, isbn: string, j: nat)
    requires Distinct(Isbns(bs)) && j < |bs| && bs[j].isbn == isbn && isbn != []
    ensures SearchIndex(bs, "", "", isbn) == Some(j)
  {
    assert Isbns(bs)[j] == isbn;
    DistinctExactMatch(Isbns(bs), j);
  }

  /** What `get_stats` reports. */
  datatype Stats = Stats(library: string, total: int, available: int, borrowed: int)

  /** `get_stats` over a library called `name` holding `bs`. */
  function StatsOf(name: string, bs: seq<Book>): (s: Stats)
    reads bs
    ensures s.library == name && s.total == |bs|
    ensures 0 <= s.borrowed <= s.total && 0 <= s.available
    ensures s.available + s.borrowed == s.total
  {
    var borrowed := CountTrue(Flags(bs));
    Stats(name, |bs|, |bs| - borrowed, borrowed)
  }

  /** The borrowed count is how many books carry the flag. */
  lemma StatsCountsBorrowed(name: string, bs: seq<Book>)
    ensures StatsOf(name, bs).borrowed == multiset(Flags(bs))[true]
    ensures StatsOf(name, bs).available == multiset(Flags(bs))[false]
  {
    CountTrueMultiset(Flags(bs));
    TruesAndFalses(Flags(bs));
  }

  /** Every flag is either true or false. */
  lemma {:induction false} TruesAndFalses(s: seq<bool>)
    ensures multiset(s)[true] + multiset(s)[false] == |s|
  {
    if s != [] {
      TruesAndFalses(s[1..]);
      assert s == [s[0]] + s[1..];
      assert multiset(s) == multiset([s[0]]) + multiset(s[1..]);
      assert multiset([s[0]])[s[0]] == 1 && multiset([s[0]])[!s[0]] == 0;
    }
  }

  /** A successful borrow moves one book from available to borrowed. */
  lemma StatsAfterBorrow(name: string, before: seq<bool>, bs: seq<Book>, k: nat)
    requires k < |before| && !before[k] && |bs| == |before| && Flags(bs) == before[k := true]
    ensures StatsOf(name, bs).borrowed == CountTrue(before) + 1
    ensures StatsOf(name, bs).available + 1 == |before| - CountTrue(before)
  {
    CountTrueSet(before, k);
  }

  /** A successful return moves one book from borrowed to available. */
  lemma StatsAfterReturn(name: string, before: seq<bool>, bs: seq<Book>, k: nat)
    requires k < |before| && before[k] && |bs| == |before| && Flags(bs) == before[k := false]
    ensures StatsOf(name, bs).borrowed + 1 == CountTrue(before)
    ensures StatsOf(name, bs).available == |before| - CountTrue(before) + 1
  {
    CountTrueClear(before, k);
  }

  class WebManager {
    const library: Library

    constructor (name: string)
      ensures fresh(library) && library.name == name && library.books == []
      ensures library.table == map[] && library.calls == []
      ensures library.Valid() && library.InSync() && library.NoStrayRows()
    {
      library := new Library(name);
    }

    /** `get_all_books`. */
    function GetAllBooks(): (r: seq<BookDict>)
      reads this, library, library.books
      ensures |r| == |library.books|
      ensures forall i :: 0 <= i < |r| ==> r[i].isbn == library.books[i].isbn && r[i].publicationYear.None?
    {
      AllBooks(library.books)
    }

    /** `get_stats`. */
    function GetStats(): (s: Stats)
      reads this, library, library.books
      ensures s.total == library.TotalBooks() && s.available + s.borrowed == s.total
    {
      StatsOf(library.name, library.books)
    }

    /** `search_books`: the dictionary of the book `SearchIndex` settles on, or None. */
    method SearchBooks(title: string, author: string, isbn: string) returns (r: Option<BookDict>)
      ensures var k := SearchIndex(library.books, title, author, isbn);
        r == if k.Some? then Some(BookToDict(library.books[k.value], None)) else None
    {
      var book: Book? := null;
      if title != [] {
        book := library.FindBookByTitle(title);
      }
      if book == null && author != [] {
        book := library.FindBookByAuthor(author);
      }
      if book == null && isbn != [] {
        book := library.FindBookByIsbn(isbn);
      }
      r := if book != null then Some(BookToDict(book, None)) else None;
    }

    /**
     * `add_manual_book`: input the validation rejects gives a failure without touching the
     * library; otherwise a plain book is built and handed to the library's `add_book`, and the
     * response reports whether it was added. A book refused for a failed insert gets the
     * duplicate-ISBN message as well.
     */
    method AddManualBook(input: BookInput, dbOk: bool) returns (resp: Response)
      requires library.Valid()
      modifies library
      ensures library.Valid() && library.name == old(library.name)
      ensures !ValidInput(input) ==>
        && resp == Response(false, ValidationFailed, None)
        && library.books == old(library.books) && library.table == old(library.table) && library.calls == old(library.calls)
      ensures ValidInput(input) && input.isbn in Isbns(old(library.books)) ==>
        && resp == Response(false, DuplicateIsbn, None)
        && library.books == old(library.books) && library.table == old(library.table) && library.calls == old(library.calls)
      ensures ValidInput(input) && input.isbn !in Isbns(old(library.books)) ==>
        var data := BookData(input.title, input.author, input.isbn, false, PlainBook);
        && library.calls == old(library.calls) + [Insert(EncodeColumns(data))]
        && library.table == (if dbOk then Apply(old(library.table), Insert(EncodeColumns(data))) else old(library.table))
        && resp.success == dbOk
        && (!dbOk ==> resp == Response(false, DuplicateIsbn, None) && library.books == old(library.books))
        && (dbOk ==>
              && resp == Response(true, AddedManually, Some(BookDict(input.title, input.author, input.isbn, Some(input.publicationYear), false)))
              && |library.books| == |old(library.books)| + 1 && library.books[..|old(library.books)|] == old(library.books)
              && fresh(library.books[|old(library.books)|]) && library.books[|old(library.books)|].Data() == data)
      ensures old(library.InSync()) ==> library.InSync()
      ensures old(library.NoStrayRows()) ==> library.NoStrayRows()
    {
      if !ValidInput(input) {
        return Response(false, ValidationFailed, None);
      }
      var book := new Book(input.title, input.author, input.isbn);
      assert library.Valid() && (library.InSync() <==> old(library.InSync()));
      var added := library.AddBook(book, dbOk);
      assert added ==> library.books[..|old(library.books)|] == old(library.books);
      resp := if added then Response(true, AddedManually, Some(BookToDict(book, Some(input.publicationYear))))
              else Response(false, DuplicateIsbn, None);
    }

    /**
     * `add_book_by_isbn`: an ISBN already present is refused before the library is asked, so
     * nothing is fetched. Otherwise the library's `add_book_by_isbn` runs, and on success the
     * response carries the dictionary of the book it appended.
     */
    method AddBookByIsbn(isbn: string, fetched: Option<Metadata>, dbOk: bool) returns (resp: Response)
      requires library.Valid() && FetchContract(isbn, fetched)
      modifies library
      ensures library.Valid() && library.name == old(library.name)
      ensures isbn in Isbns(old(library.books)) ==>
        && resp == Response(false, DuplicateIsbn, None)
        && library.books == old(library.books) && library.table == old(library.table) && library.calls == old(library.calls)
      ensures isbn !in Isbns(old(library.books)) ==>
        && resp.success == (fetched.Some? && dbOk)
        && |library.calls| > |old(library.calls)| && library.calls[|old(library.calls)|] == FetchMetadata(isbn)
        && (!resp.success ==> resp == Response(false, NotOnOpenLibrary, None) && library.books == old(library.books))
      ensures isbn !in Isbns(old(library.books)) && fetched.None? ==>
        library.calls == old(library.calls) + [FetchMetadata(isbn)] && library.table == old(library.table)
      ensures isbn !in Isbns(old(library.books)) && fetched.Some? ==>
        var call := Insert(EncodeColumns(BookData(fetched.value.title, fetched.value.author, isbn, false, PlainBook)));
        && library.calls == old(library.calls) + [FetchMetadata(isbn), call]
        && library.table == (if dbOk then Apply(old(library.table), call) else old(library.table))
      ensures resp.success ==>
        var data := BookData(fetched.value.title, fetched.value.author, isbn, false, PlainBook);
        && resp == Response(true, AddedByIsbn, Some(BookDict(data.title, data.author, isbn, None, false)))
        && data.title != [] && data.author != []
        && |library.books| == |old(library.books)| + 1 && library.books[..|old(library.books)|] == old(library.books)
        && fresh(library.books[|old(library.books)|]) && library.books[|old(library.books)|].Data() == data
      ensures old(library.InSync()) ==> library.InSync()
      ensures old(library.NoStrayRows()) ==> library.NoStrayRows()
    {
      var existing := library.FindBookByIsbn(isbn);
      if existing != null {
        return Response(false, DuplicateIsbn, None);
      }
      assert isbn !in Isbns(library.books);
      var added := library.AddBookByIsbn(isbn, fetched, dbOk);
      if !added {
        return Response(false, NotOnOpenLibrary, None);
      }
      resp := DescribeAdded(isbn, |old(library.books)|);
    }

    /** The success response of `add_book_by_isbn`: the book is looked up again by its ISBN. */
    method DescribeAdded(isbn: string, ghost j: nat) returns (resp: Response)
      requires library.Valid() && j < |library.books| && library.books[j].isbn == isbn
      ensures resp == Response(true, AddedByIsbn, Some(BookToDict(library.books[j], None)))
    {
      assert Isbns(library.books)[j] == isbn;
      DistinctExactMatch(Isbns(library.books), j);
      var book := library.FindBookByIsbn(isbn);
      resp := Response(true, AddedByIsbn, Some(BookToDict(book, None)));
    }

    /**
     * `borrow_book`: success exactly when the library's `borrow_book` returns True, that is when
     * the book is present, available and the write went through; the message then names the book.
     */
    method BorrowBook(isbn: string, dbOk: bool) returns (resp: Response)
      requires library.Valid()
      modifies library, library.books
      ensures library.Valid() && library.books == old(library.books) && library.name == old(library.name)
      ensures var k := FirstMatch(Exact, Isbns(library.books), isbn);
        var attempted := k.Some? && !old(library.books[k.value].isBorrowed);
        && (resp.success <==> attempted && dbOk)
        && Flags(library.books) == (if attempted then old(Flags(library.books))[k.value := true] else old(Flags(library.books)))
        && library.calls == (if attempted then old(library.calls) + [UpdateBorrowed(isbn, 1)] else old(library.calls))
        && library.table == (if attempted && dbOk then Apply(old(library.table), UpdateBorrowed(isbn, 1)) else old(library.table))
        && (old(library.InSync()) ==> (library.InSync() <==> !attempted || dbOk))
      ensures resp.success ==>
        resp == Response(true, "'" + library.books[FirstMatch(Exact, Isbns(library.books), isbn).value].title + "' ödünç alındı", None)
      ensures !resp.success ==> resp == Response(false, BorrowRefused, None)
      ensures old(library.NoStrayRows()) ==> library.NoStrayRows()
    {
      var r := library.BorrowBook(isbn, dbOk);
      if r != Some(true) {
        return Response(false, BorrowRefused, None);
      }
      ghost var flags, valid, inSync, noStray := Flags(library.books), library.Valid(), library.InSync(), library.NoStrayRows();
      resp := Announce(isbn, "' ödünç alındı");
      assert Flags(library.books) == flags && library.Valid() == valid && library.InSync() == inSync && library.NoStrayRows() == noStray;
    }

    /**
     * `return_book`: success exactly when the library's `return_book` returns True, that is when
     * the book is present, borrowed and the write went through; the message then names the book.
     */
    method ReturnBook(isbn: string, dbOk: bool) returns (resp: Response)
      requires library.Valid()
      modifies library, library.books
      ensures library.Valid() && library.books == old(library.books) && library.name == old(library.name)
      ensures var k := FirstMatch(Exact, Isbns(library.books), isbn);
        var attempted := k.Some? && old(library.books[k.value].isBorrowed);
        && (resp.success <==> attempted && dbOk)
        && Flags(library.books) == (if attempted then old(Flags(library.books))[k.value := false] else old(Flags(library.books)))
        && library.calls == (if attempted then old(library.calls) + [UpdateBorrowed(isbn, 0)] else old(library.calls))
        && library.table == (if attempted && dbOk then Apply(old(library.table), UpdateBorrowed(isbn, 0)) else old(library.table))
        && (old(library.InSync()) ==> (library.InSync() <==> !attempted || dbOk))
      ensures resp.success ==>
        resp == Response(true, "'" + library.books[FirstMatch(Exact, Isbns(library.books), isbn).value].title + "' iade edildi", None)
      ensures !resp.success ==> resp == Response(false, ReturnRefused, None)
      ensures old(library.NoStrayRows()) ==> library.NoStrayRows()
    {
      var r := library.ReturnBook(isbn, dbOk);
      if r != Some(true) {
        return Response(false, ReturnRefused, None);
      }
      ghost var flags, valid, inSync, noStray := Flags(library.books), library.Valid(), library.InSync(), library.NoStrayRows();
      resp := Announce(isbn, "' iade edildi");
      assert Flags(library.books) == flags && library.Valid() == valid && library.InSync() == inSync && library.NoStrayRows() == noStray;
    }

    /** The success response of `borrow_book` and `return_book`: the book is looked up again by its ISBN. */
    method Announce(isbn: string, suffix: string) returns (resp: Response)
      requires isbn in Isbns(library.books)
      ensures resp == Response(true, "'" + library.books[FirstMatch(Exact, Isbns(library.books), isbn).value].title + suffix, None)
    {
      var book := library.FindBookByIsbn(isbn);
      resp := Response(true, "'" + book.title + suffix, None);
    }

    /**
     * `remove_book`: success exactly when the library's `remove_book` returns True, that is when
     * the ISBN is present and the delete went through. An absent ISBN and a failed delete both
     * get the not-found message.
     */
    method RemoveBook(isbn: string, dbOk: bool) returns (resp: Response)
      requires library.Valid()
      modifies library
      ensures library.Valid() && library.name == old(library.name)
      ensures resp.success <==> isbn in Isbns(old(library.books)) && dbOk
      ensures resp == if resp.success then Response(true, Removed, None) else Response(false, NotRemoved, None)
      ensures library.books ==
        if resp.success then RemoveAt(old(library.books), FirstMatch(Exact, Isbns(old(library.books)), isbn).value)
        else old(library.books)
      ensures library.calls == if isbn in Isbns(old(library.books)) then old(library.calls) + [Delete(isbn)] else old(library.calls)
      ensures library.table == if resp.success then Apply(old(library.table), Delete(isbn)) else old(library.table)
      ensures resp.success ==> isbn !in Isbns(library.books)
      ensures old(library.InSync()) ==> library.InSync()
      ensures old(library.NoStrayRows()) ==> library.NoStrayRows()
    {
      var r := library.RemoveBook(isbn, dbOk);
      resp := if r == Some(true) then Response(true, Removed, None) else Response(false, NotRemoved, None);
    }
  }
}
