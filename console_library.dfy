/**
 * The console snapshot of the catalog: book classes with a borrowed flag that changes in place,
 * and a `Library` that keeps its books in insertion order, keyed by ISBN.
 */
module ConsoleLibrary {
  import opened Common
  import Lending

  /** Which class a book was created as; the audio book's duration is in hours here. */
  datatype Kind =
    | PlainBook
    | EBook(fileFormat: string, fileSize: Float)
    | AudioBook(durationHours: Float)

  class Book {
    const title: string
    const author: string
    const isbn: string
    const kind: Kind
    var isBorrowed: bool

    /** `Book(title, author, isbn)`: a plain book that is not borrowed. */
    constructor (title: string, author: string, isbn: string)
      ensures this.title == title && this.author == author && this.isbn == isbn
      ensures kind == PlainBook && !isBorrowed
    {
      this.title := title;
      this.author := author;
      this.isbn := isbn;
      kind := PlainBook;
      isBorrowed := false;
    }

    /** `EBook(title, author, isbn, file_format, file_size)`, not borrowed. */
    constructor EBook(title: string, author: string, isbn: string, fileFormat: string, fileSize: Float)
      ensures this.title == title && this.author == author && this.isbn == isbn
      ensures kind == Kind.EBook(fileFormat, fileSize) && !isBorrowed
    {
      this.title := title;
      this.author := author;
      this.isbn := isbn;
      kind := Kind.EBook(fileFormat, fileSize);
      isBorrowed := false;
    }

    /** `AudioBook(title, author, isbn, duration_hours)`, not borrowed. */
    constructor AudioBook(title: string, author: string, isbn: string, durationHours: Float)
      ensures this.title == title && this.author == author && this.isbn == isbn
      ensures kind == Kind.AudioBook(durationHours) && !isBorrowed
    {
      this.title := title;
      this.author := author;
      this.isbn := isbn;
      kind := Kind.AudioBook(durationHours);
      isBorrowed := false;
    }

    method BorrowBook() returns (r: Outcome<bool>)
      modifies this
      ensures isBorrowed == Lending.Borrow(old(isBorrowed)).borrowed
      ensures !old(isBorrowed) ==> isBorrowed && r == Returned(true)
      ensures old(isBorrowed) ==> isBorrowed && r == Raised(title + " is already borrowed.")
    {
      if !isBorrowed {
        isBorrowed := true;
        return Returned(true);
      }
      r := Raised(title + " is already borrowed.");
    }

    method ReturnBook() returns (r: Outcome<bool>)
      modifies this
      ensures isBorrowed == Lending.Return(old(isBorrowed)).borrowed
      ensures old(isBorrowed) ==> !isBorrowed && r == Returned(true)
      ensures !old(isBorrowed) ==> !isBorrowed && r == Raised(title + " was not borrowed.")
    {
      if isBorrowed {
        isBorrowed := false;
        return Returned(true);
      }
      r := Raised(title + " was not borrowed.");
    }

    /** The base class's `display_info`: `"{title} by {author} (ISBN: {isbn})"`. */
    function BaseInfo(): (r: string)
      ensures |r| == |title| + |author| + |isbn| + 13
      ensures r[..|title|] == title
      ensures r[|r| - |isbn| - 1..] == isbn + ")"
    {
      title + " by " + author + " (ISBN: " + isbn + ")"
    }

    /** `display_info` as dispatched on the book's class: the subclasses append their own details. */
    function DisplayInfo(): (r: string)
      ensures BaseInfo() <= r
      ensures r == BaseInfo() <==> kind.PlainBook?
      ensures kind.EBook? ==> r[|BaseInfo()|..] == " - Format: " + kind.fileFormat + " - Size: " + kind.fileSize.repr + "MB"
      ensures kind.AudioBook? ==> r[|BaseInfo()|..] == " - Duration: " + kind.durationHours.repr + " hours"
    {
      match kind
      case PlainBook => BaseInfo()
      case EBook(format, size) => BaseInfo() + " - Format: " + format + " - Size: " + size.repr + "MB"
      case AudioBook(hours) => BaseInfo() + " - Duration: " + hours.repr + " hours"
    }
  }

  function TitleOf(b: Book): string { b.title }
  function AuthorOf(b: Book): string { b.author }
  function IsbnOf(b: Book): string { b.isbn }

  function Titles(bs: seq<Book>): seq<string> { Project(bs, TitleOf) }
  function Authors(bs: seq<Book>): seq<string> { Project(bs, AuthorOf) }
  function Isbns(bs: seq<Book>): seq<string> { Project(bs, IsbnOf) }

  /** Adding a book with a new ISBN and then removing that ISBN gives back the original sequence. */
  lemma AddThenRemove(bs: seq<Book>, b: Book)
    requires Distinct(Isbns(bs)) && b.isbn !in Isbns(bs)
    ensures FirstMatch(Exact, Isbns(bs + [b]), b.isbn) == Some(|bs|)
    ensures RemoveAt(bs + [b], |bs|) == bs
  {
    ProjectAppend(bs, b, IsbnOf);
    DistinctAppend(Isbns(bs), b.isbn);
    DistinctExactMatch(Isbns(bs + [b]), |bs|);
    assert (bs + [b])[..|bs|] == bs;
  }

  /**
   * Where `find_book` looks: title first, then author, then ISBN; a criterion is consulted only
   * when it has a character other than white space, and a miss falls through to the next one.
   */
  function FindBookIndex(bs: seq<Book>, title: string, author: string, isbn: string): (r: Option<nat>)
    ensures r.Some? ==> r.value < |bs|
  {
    var t := FirstMatch(CaseFolded, Titles(bs), title);
    var a := FirstMatch(CaseFolded, Authors(bs), author);
    var n := FirstMatch(Exact, Isbns(bs), isbn);
    if !IsBlank(title) && t.Some? then t
    else if !IsBlank(author) && a.Some? then a
    else if !IsBlank(isbn) && n.Some? then n
    else None
  }

  /** `find_book` finds nothing exactly when no consulted criterion matches any book. */
  lemma FindBookMisses(bs: seq<Book>, title: string, author: string, isbn: string)
    ensures FindBookIndex(bs, title, author, isbn).None? <==>
      && (IsBlank(title) || forall i :: 0 <= i < |bs| ==> Lower(bs[i].title) != Lower(title))
      && (IsBlank(author) || forall i :: 0 <= i < |bs| ==> Lower(bs[i].author) != Lower(author))
      && (IsBlank(isbn) || forall i :: 0 <= i < |bs| ==> bs[i].isbn != isbn)
  {
    assert forall i :: 0 <= i < |bs| ==> Titles(bs)[i] == bs[i].title && Authors(bs)[i] == bs[i].author;
    assert forall i :: 0 <= i < |bs| ==> Isbns(bs)[i] == bs[i].isbn;
  }

  /** A book `find_book` returns matches a criterion that was consulted. */
  lemma FindBookMatches(bs: seq<Book>, title: string, author: string, isbn: string)
    ensures var r := FindBookIndex(bs, title, author, isbn);
      r.Some? ==>
        || (!IsBlank(title) && Lower(bs[r.value].title) == Lower(title))
        || (!IsBlank(author) && Lower(bs[r.value].author) == Lower(author))
        || (!IsBlank(isbn) && bs[r.value].isbn == isbn)
  {
  }

  /**
   * The title takes precedence: when a non-blank title names some book, `find_book` returns the
   * first such book whatever the author and ISBN say.
   */
  lemma FindBookTitleFirst(bs: seq<Book>, title: string, author: string, isbn: string, j: nat)
    requires !IsBlank(title) && j < |bs| && Lower(bs[j].title) == Lower(title)
    ensures var r := FindBookIndex(bs, title, author, isbn);
      r.Some? && r.value <= j && Lower(bs[r.value].title) == Lower(title)
      && forall i :: 0 <= i < r.value ==> Lower(bs[i].title) != Lower(title)
  {
    assert Titles(bs)[j] == bs[j].title;
  }

  class Library {
    var name: string
    var books: seq<Book>

    /** No two books share an ISBN. */
    predicate Valid()
      reads this
    {
      Distinct(Isbns(books))
    }

    constructor (name: string)
      ensures this.name == name && books == [] && Valid()
    {
      this.name := name;
      books := [];
    }

    /** The `total_books` property: how many books the library holds. */
    function TotalBooks(): (n: nat)
      reads this
      ensures n == |books| && n == |Isbns(books)|
    {
      |books|
    }

    method FindBookByTitle(title: string) returns (r: Book?)
      ensures var k := FirstMatch(CaseFolded, Titles(books), title);
        if k.Some? then r == books[k.value] else r == null
    {
      for i := 0 to |books|
        invariant forall j :: 0 <= j < i ==> !KeyMatches(CaseFolded, Titles(books)[j], title)
      {
        if Lower(books[i].title) == Lower(title) {
          FirstMatchAt(CaseFolded, Titles(books), title, i);
          return books[i];
        }
      }
      return null;
    }

    method FindBookByIsbn(isbn: string) returns (r: Book?)
      ensures var k := FirstMatch(Exact, Isbns(books), isbn);
        if k.Some? then r == books[k.value] else r == null
    {
      for i := 0 to |books|
        invariant forall j :: 0 <= j < i ==> !KeyMatches(Exact, Isbns(books)[j], isbn)
      {
        if books[i].isbn == isbn {
          FirstMatchAt(Exact, Isbns(books), isbn, i);
          return books[i];
        }
      }
      return null;
    }

    method FindBookByAuthor(author: string) returns (r: Book?)
      ensures var k := FirstMatch(CaseFolded, Authors(books), author);
        if k.Some? then r == books[k.value] else r == null
    {
      for i := 0 to |books|
        invariant forall j :: 0 <= j < i ==> !KeyMatches(CaseFolded, Authors(books)[j], author)
      {
        if Lower(books[i].author) == Lower(author) {
          FirstMatchAt(CaseFolded, Authors(books), author, i);
          return books[i];
        }
      }
      return null;
    }

    /** `find_book`: the book at the position `FindBookIndex` settles on, or none. */
    method FindBook(title: string, author: string, isbn: string) returns (r: Book?)
      ensures var k := FindBookIndex(books, title, author, isbn);
        r == if k.Some? then books[k.value] else null
    {
      StripEmpty(title);
      StripEmpty(author);
      StripEmpty(isbn);
      r := null;
      if Strip(title) != [] {
        r := FindBookByTitle(title);
      }
      if r == null && Strip(author) != [] {
        r := FindBookByAuthor(author);
      }
      if r == null && Strip(isbn) != [] {
        r := FindBookByIsbn(isbn);
      }
    }

    /**
     * `add_book`: a book whose ISBN is already present is refused and nothing changes; otherwise it
     * is appended at the end.
     */
    method AddBook(book: Book) returns (added: bool)
      requires Valid()
      modifies this
      ensures Valid() && name == old(name)
      ensures added <==> book.isbn !in Isbns(old(books))
      ensures books == if added then old(books) + [book] else old(books)
    {
      var existing := FindBookByIsbn(book.isbn);
      if existing != null {
        return false;
      }
      ProjectAppend(books, book, IsbnOf);
      DistinctAppend(Isbns(books), book.isbn);
      books := books + [book];
      added := true;
    }

    /**
     * `remove_book`: an absent ISBN changes nothing; otherwise the one book with that ISBN is taken
     * out and the others keep their order.
     */
    method RemoveBook(isbn: string) returns (removed: bool)
      requires Valid()
      modifies this
      ensures Valid() && name == old(name)
      ensures removed <==> isbn in Isbns(old(books))
      ensures var k := FirstMatch(Exact, Isbns(old(books)), isbn);
        books == if k.Some? then RemoveAt(old(books), k.value) else old(books)
      ensures isbn !in Isbns(books)
    {
      var book := FindBookByIsbn(isbn);
      if book != null {
        ghost var k := FirstMatch(Exact, Isbns(books), isbn).value;
        // `self._books.remove(book)` drops the first element identical to `book`.
        var i := IndexOf(books, book);
        assert i == k;
        ProjectRemoveAt(books, i, IsbnOf);
        DistinctRemoveAt(Isbns(books), i);
        books := RemoveAt(books, i);
        return true;
      }
      return false;
    }
  }
}
