/**
 * The persisted snapshot of the catalog. Books live in memory in insertion order and every
 * mutation is written to a `books` table keyed by ISBN. Each write either succeeds or fails; the
 * `dbOk` parameter of a method says which. The table and the sequence of calls made to the
 * database are kept as ghost state, so that contracts can say what was written and when.
 */
module WebLibrary {
  import opened Common
  import Lending

  /** Which class a book was created as; the audio book's duration is in minutes here. */
  datatype Kind =
    | PlainBook
    | EBook(fileFormat: string, fileSize: Float)
    | AudioBook(durationMinutes: int)

  /** Everything a book holds, as one value. */
  datatype BookData = BookData(title: string, author: string, isbn: string, borrowed: bool, kind: Kind)

  /** The columns of the `books` table that follow the auto-assigned `id`, in table order. */
  datatype Columns = Columns(
    title: string,
    author: string,
    isbn: string,
    isBorrowed: int,
    bookType: string,
    fileFormat: Option<string>,
    fileSize: Option<Float>,
    durationMinutes: Option<int>)

  /** A row as `SELECT *` yields it: `row[0]` is the id, `row[1]` to `row[8]` are the columns. */
  datatype Row = Row(id: int, cols: Columns)

  // ---------------------------------------------------------------------------
  // Row codec

  /** How SQLite stores a Python bool: 1 for True, 0 for False. */
  function Bit(b: bool): int
  {
    if b then 1 else 0
  }

  /** A row that the encoder can produce: a known tag, only that variant's fields set, a 0/1 flag. */
  predicate Canonical(c: Columns)
  {
    && (c.isBorrowed == 0 || c.isBorrowed == 1)
    && (c.bookType == "Book" || c.bookType == "EBook" || c.bookType == "AudioBook")
    && (c.fileFormat.Some? <==> c.bookType == "EBook")
    && (c.fileSize.Some? <==> c.bookType == "EBook")
    && (c.durationMinutes.Some? <==> c.bookType == "AudioBook")
  }

  /** The values `save_book_to_db` binds to the INSERT: tag by class, other variants' fields NULL. */
  function EncodeColumns(d: BookData): (c: Columns)
    ensures Canonical(c)
    ensures c.title == d.title && c.author == d.author && c.isbn == d.isbn
    ensures c.isBorrowed == Bit(d.borrowed)
    ensures c.bookType == "Book" <==> d.kind.PlainBook?
    ensures c.bookType == "EBook" <==> d.kind.EBook?
    ensures c.bookType == "AudioBook" <==> d.kind.AudioBook?
  {
    var flag := Bit(d.borrowed);
    match d.kind
    case PlainBook =>
      Columns(d.title, d.author, d.isbn, flag, "Book", None, None, None)
    case EBook(format, size) =>
      Columns(d.title, d.author, d.isbn, flag, "EBook", Some(format), Some(size), None)
    case AudioBook(minutes) =>
      Columns(d.title, d.author, d.isbn, flag, "AudioBook", None, None, Some(minutes))
  }

  function OrElse<T>(o: Option<T>, default: T): T
  {
    match o
    case Some(v) => v
    case None => default
  }

  /** `_row_to_book`: the variant is chosen by `row[5]`, missing variant fields get defaults. */
  function DecodeRow(row: Row): (d: BookData)
    ensures d.title == row.cols.title && d.author == row.cols.author && d.isbn == row.cols.isbn
    ensures d.borrowed <==> row.cols.isBorrowed != 0
    ensures d.kind.EBook? <==> row.cols.bookType == "EBook"
    ensures d.kind.AudioBook? <==> row.cols.bookType == "AudioBook"
    ensures d.kind.EBook? ==>
      d.kind.fileFormat == OrElse(row.cols.fileFormat, "") && d.kind.fileSize == OrElse(row.cols.fileSize, ZeroFloat)
    ensures d.kind.AudioBook? ==> d.kind.durationMinutes == OrElse(row.cols.durationMinutes, 0)
  {
    var c := row.cols;
    var kind :=
      if c.bookType == "EBook" then EBook(OrElse(c.fileFormat, ""), OrElse(c.fileSize, ZeroFloat))
      else if c.bookType == "AudioBook" then AudioBook(OrElse(c.durationMinutes, 0))
      else PlainBook;
    BookData(c.title, c.author, c.isbn, c.isBorrowed != 0, kind)
  }

  /** Decoding what was saved gives back the book, whatever id the database assigned. */
  lemma DecodeEncode(id: int, d: BookData)
    ensures DecodeRow(Row(id, EncodeColumns(d))) == d
  {
  }

  /** Encoding a decoded canonical row reproduces its columns. */
  lemma EncodeDecode(row: Row)
    requires Canonical(row.cols)
    ensures EncodeColumns(DecodeRow(row)) == row.cols
  {
  }

  /** A row with an unknown tag decodes to a plain book, whatever its variant columns hold. */
  lemma UnknownTagIsPlain(row: Row)
    requires row.cols.bookType != "EBook" && row.cols.bookType != "AudioBook"
    ensures DecodeRow(row).kind == PlainBook
  {
  }

  /** Changing the borrowed flag changes only the `is_borrowed` column. */
  lemma EncodeFlag(d: BookData, f: bool)
    ensures EncodeColumns(d.(borrowed := f)) == EncodeColumns(d).(isBorrowed := Bit(f))
  {
  }

  // ---------------------------------------------------------------------------
  // Books

  class Book {
    const title: string
    const author: string
    const isbn: string
    const kind: Kind
    var isBorrowed: bool

    /** `Book(title, author, isbn)`: a plain book that is not borrowed. */
    constructor (title: string, author: string, isbn: string)
      ensures this.title == title && this.author == author && this.isbn == isbn
      ensures kind == PlainBook && !isBorrowed
    {
      this.title := title;
      this.author := author;
      this.isbn := isbn;
      kind := PlainBook;
      isBorrowed := false;
    }

    /** `EBook(title, author, isbn, file_format, file_size)`, not borrowed. */
    constructor EBook(title: string, author: string, isbn: string, fileFormat: string, fileSize: Float)
      ensures this.title == title && this.author == author && this.isbn == isbn
      ensures kind == Kind.EBook(fileFormat, fileSize) && !isBorrowed
    {
      this.title := title;
      this.author := author;
      this.isbn := isbn;
      kind := Kind.EBook(fileFormat, fileSize);
      isBorrowed := false;
    }

    /** `AudioBook(title, author, isbn, duration_minutes)`, not borrowed. */
    constructor AudioBook(title: string, author: string, isbn: string, durationMinutes: int)
      ensures this.title == title && this.author == author && this.isbn == isbn
      ensures kind == Kind.AudioBook(durationMinutes) && !isBorrowed
    {
      this.title := title;
      this.author := author;
      this.isbn := isbn;
      kind := Kind.AudioBook(durationMinutes);
      isBorrowed := false;
    }

    function Data(): BookData
      reads this
    {
      BookData(title, author, isbn, isBorrowed, kind)
    }

    method BorrowBook() returns (r: Outcome<bool>)
      modifies this
      ensures isBorrowed == Lending.Borrow(old(isBorrowed)).borrowed
      ensures !old(isBorrowed) ==> isBorrowed && r == Returned(true)
      ensures old(isBorrowed) ==> isBorrowed && r == Raised(title + " zaten ödünç verildi.")
    {
      if !isBorrowed {
        isBorrowed := true;
        return Returned(true);
      }
      r := Raised(title + " zaten ödünç verildi.");
    }

    method ReturnBook() returns (r: Outcome<bool>)
      modifies this
      ensures isBorrowed == Lending.Return(old(isBorrowed)).borrowed
      ensures old(isBorrowed) ==> !isBorrowed && r == Returned(true)
      ensures !old(isBorrowed) ==> !isBorrowed && r == Raised(title + " ödünç verilmedi.")
    {
      if isBorrowed {
        isBorrowed := false;
        return Returned(true);
      }
      r := Raised(title + " ödünç verilmedi.");
    }

    /** The base class's `display_info`: `"{title} by {author} (ISBN: {isbn})"`. */
    function BaseInfo(): (r: string)
      ensures |r| == |title| + |author| + |isbn| + 13
      ensures r[..|title|] == title
      ensures r[|r| - |isbn| - 1..] == isbn + ")"
    {
      title + " by " + author + " (ISBN: " + isbn + ")"
    }

    /** `display_info` as dispatched on the book's class: the subclasses append their own details. */
    function DisplayInfo(): (r: string)
      ensures BaseInfo() <= r
      ensures r == BaseInfo() <==> kind.PlainBook?
      ensures kind.EBook? ==>
        r[|BaseInfo()|..] == " - Format: " + kind.fileFormat + " - Dosya Boyutu: " + kind.fileSize.repr + "MB"
      ensures kind.AudioBook? ==>
        r[|BaseInfo()|..] == " - Süre: " + IntToString(kind.durationMinutes) + " dakika"
    {
      match kind
      case PlainBook => BaseInfo()
      case EBook(format, size) => BaseInfo() + " - Format: " + format + " - Dosya Boyutu: " + size.repr + "MB"
      case AudioBook(minutes) => BaseInfo() + " - Süre: " + IntToString(minutes) + " dakika"
    }
  }

  /** The minutes an audio book shows read back, as an integer, from between the suffix's fixed words. */
  lemma DurationReadsBack(b: Book)
    requires b.kind.AudioBook?
    ensures var r := b.DisplayInfo();
      var n := |b.BaseInfo()|;
      n + 9 <= |r| - 7
      && var m := r[n + 9..|r| - 7];
      m != [] && (m[0] == '-' || IsDigit(m[0])) && (forall i :: 0 < i < |m| ==> IsDigit(m[i]))
      && ParseInt(m) == b.kind.durationMinutes
  {
    var r := b.DisplayInfo();
    var n := |b.BaseInfo()|;
    var digits := IntToString(b.kind.durationMinutes);
    assert r[n..] == " - Süre: " + digits + " dakika";
    assert r[n + 9..|r| - 7] == digits;
    IntToStringRoundTrip(b.kind.durationMinutes);
  }

  function TitleOf(b: Book): string { b.title }
  function AuthorOf(b: Book): string { b.author }
  function IsbnOf(b: Book): string { b.isbn }

  function Titles(bs: seq<Book>): seq<string> { Project(bs, TitleOf) }
  function Authors(bs: seq<Book>): seq<string> { Project(bs, AuthorOf) }
  function Isbns(bs: seq<Book>): seq<string> { Project(bs, IsbnOf) }

  /** The borrowed flags of the books, in order. */
  function Flags(bs: seq<Book>): (f: seq<bool>)
    reads bs
    ensures |f| == |bs| && forall i :: 0 <= i < |bs| ==> f[i] == bs[i].isBorrowed
  {
    seq(|bs|, i reads bs requires 0 <= i < |bs| => bs[i].isBorrowed)
  }

  // ---------------------------------------------------------------------------
  // The database, as seen by the catalog

  /** A call the catalog makes to the outside: the three table writes and the metadata fetch. */
  datatype DbCall =
    | Insert(cols: Columns)
    | UpdateBorrowed(isbn: string, isBorrowed: int)
    | Delete(isbn: string)
    | FetchMetadata(isbn: string)

  /** The `books` table, keyed by its UNIQUE `isbn` column, after a call that succeeded. */
  function Apply(table: map<string, Columns>, call: DbCall): map<string, Columns>
  {
    match call
    case Insert(c) => table[c.isbn := c]
    case UpdateBorrowed(isbn, f) => if isbn in table then table[isbn := table[isbn].(isBorrowed := f)] else table
    case Delete(isbn) => table - {isbn}
    case FetchMetadata(_) => table
  }

  /** The key of the row a call touches. */
  function Target(call: DbCall): string
  {
    if call.Insert? then call.cols.isbn else call.isbn
  }

  /**
   * Each call touches at most the row its ISBN names: an insert stores its columns under that key,
   * an update rewrites only the `is_borrowed` column of an existing row, a delete drops the key and
   * a fetch leaves the table alone.
   */
  lemma ApplyEffect(table: map<string, Columns>, call: DbCall)
    ensures var t := Apply(table, call);
      && (call.Insert? ==> call.cols.isbn in t && t[call.cols.isbn] == call.cols)
      && (call.UpdateBorrowed? ==>
            (call.isbn in t <==> call.isbn in table)
            && (call.isbn in table ==> t[call.isbn] == table[call.isbn].(isBorrowed := call.isBorrowed)))
      && (call.Delete? ==> call.isbn !in t)
      && (call.FetchMetadata? ==> t == table)
      && forall k :: k != Target(call) ==> (k in t <==> k in table) && (k in t ==> t[k] == table[k])
  {
  }

  /** The stored row holds this book's fields, whatever `is_borrowed` it records. */
  predicate RowEncodes(c: Columns, b: Book)
  {
    c == EncodeColumns(BookData(b.title, b.author, b.isbn, c.isBorrowed != 0, b.kind))
  }

  /** Every book has a row, and that row holds the book's fields. */
  ghost predicate RowsMatch(table: map<string, Columns>, bs: seq<Book>)
  {
    forall i :: 0 <= i < |bs| ==> bs[i].isbn in table && RowEncodes(table[bs[i].isbn], bs[i])
  }

  /** The row stored under each ISBN records the matching borrowed flag. */
  ghost predicate FlagsStored(table: map<string, Columns>, isbns: seq<string>, flags: seq<bool>)
    requires |isbns| == |flags|
  {
    forall j :: 0 <= j < |isbns| ==> isbns[j] in table && table[isbns[j]].isBorrowed == Bit(flags[j])
  }

  /** Writing a 0/1 flag into one book's row keeps every row matching its book. */
  lemma RowsAfterUpdate(table: map<string, Columns>, bs: seq<Book>, k: nat, v: int)
    requires RowsMatch(table, bs) && k < |bs| && (v == 0 || v == 1)
    ensures RowsMatch(Apply(table, UpdateBorrowed(bs[k].isbn, v)), bs)
  {
    var isbn := bs[k].isbn;
    var t := Apply(table, UpdateBorrowed(isbn, v));
    forall i | 0 <= i < |bs|
      ensures bs[i].isbn in t && RowEncodes(t[bs[i].isbn], bs[i])
    {
      if bs[i].isbn == isbn {
        var c := table[isbn];
        EncodeFlag(BookData(bs[i].title, bs[i].author, isbn, c.isBorrowed != 0, bs[i].kind), v != 0);
      }
    }
  }

  /** A successful write of flag `f` for the book at `k` stores the updated flags. */
  lemma FlagWritten(table: map<string, Columns>, isbns: seq<string>, flags: seq<bool>, k: nat, f: bool)
    requires Distinct(isbns) && |isbns| == |flags| && k < |isbns|
    requires FlagsStored(table, isbns, flags)
    ensures FlagsStored(Apply(table, UpdateBorrowed(isbns[k], Bit(f))), isbns, flags[k := f])
  {
  }

  /** If the write of a changed flag did not happen, the table no longer records the flags. */
  lemma FlagNotWritten(table: map<string, Columns>, isbns: seq<string>, flags: seq<bool>, k: nat, f: bool)
    requires |isbns| == |flags| && k < |isbns| && flags[k] != f
    requires FlagsStored(table, isbns, flags)
    ensures !FlagsStored(table, isbns, flags[k := f])
  {
  }

  /**
   * What an UPDATE of the flag of the book at `k` to `f` leaves in a table that matches `bs`,
   * whether or not it was written: every row still matches, the keys stay, and flags that were
   * stored stay stored exactly when the write happened or did not change anything.
   */
  lemma UpdateOutcome(table: map<string, Columns>, bs: seq<Book>, k: nat, before: seq<bool>, f: bool, written: bool)
    requires RowsMatch(table, bs) && k < |bs| && |before| == |bs|
    ensures var t := if written then Apply(table, UpdateBorrowed(bs[k].isbn, Bit(f))) else table;
      && RowsMatch(t, bs) && t.Keys == table.Keys
      && (Distinct(Isbns(bs)) && FlagsStored(table, Isbns(bs), before) ==>
            (FlagsStored(t, Isbns(bs), before[k := f]) <==> written || f == before[k]))
  {
    if written {
      RowsAfterUpdate(table, bs, k, Bit(f));
    }
    if Distinct(Isbns(bs)) && FlagsStored(table, Isbns(bs), before) {
      if written {
        FlagWritten(table, Isbns(bs), before, k, f);
      } else if f != before[k] {
        FlagNotWritten(table, Isbns(bs), before, k, f);
      } else {
        assert before[k := f] == before;
      }
    }
  }

  /** Inserting the row of a book with a new ISBN and appending the book keeps the table matching. */
  lemma AppendOutcome(table: map<string, Columns>, bs: seq<Book>, b: Book)
    requires Distinct(Isbns(bs)) && b.isbn !in Isbns(bs)
    requires RowsMatch(table, bs)
    ensures var t := Apply(table, Insert(EncodeColumns(b.Data())));
      && Distinct(Isbns(bs + [b])) && RowsMatch(t, bs + [b])
      && (table.Keys == Elements(Isbns(bs)) ==> t.Keys == Elements(Isbns(bs + [b])))
      && (FlagsStored(table, Isbns(bs), Flags(bs)) ==> FlagsStored(t, Isbns(bs + [b]), Flags(bs + [b])))
  {
    ProjectAppend(bs, b, IsbnOf);
    DistinctAppend(Isbns(bs), b.isbn);
    ElementsAppend(Isbns(bs), b.isbn);
    EncodeFlag(b.Data(), b.isBorrowed);
  }

  /** Deleting the row of the book at `i` and dropping the book keeps the table matching. */
  lemma RemoveOutcome(table: map<string, Columns>, bs: seq<Book>, i: nat)
    requires Distinct(Isbns(bs)) && i < |bs|
    requires RowsMatch(table, bs)
    ensures var t := Apply(table, Delete(bs[i].isbn));
      var rest := RemoveAt(bs, i);
      && Distinct(Isbns(rest)) && RowsMatch(t, rest)
      && (table.Keys == Elements(Isbns(bs)) ==> t.Keys == Elements(Isbns(rest)))
      && bs[i].isbn !in Isbns(rest)
      && (FlagsStored(table, Isbns(bs), Flags(bs)) ==> FlagsStored(t, Isbns(rest), Flags(rest)))
  {
    ProjectRemoveAt(bs, i, IsbnOf);
    DistinctRemoveAt(Isbns(bs), i);
    ElementsRemoveAt(Isbns(bs), i);
    RemoveKeepsRows(table, bs, i);
    if FlagsStored(table, Isbns(bs), Flags(bs)) {
      RemoveKeepsFlags(table, bs, i);
    }
  }

  /** Every book left after dropping the one at `i` keeps its own, untouched row. */
  lemma RemoveKeepsRows(table: map<string, Columns>, bs: seq<Book>, i: nat)
    requires Distinct(Isbns(bs)) && i < |bs| && RowsMatch(table, bs)
    ensures var t := Apply(table, Delete(bs[i].isbn));
      forall j :: 0 <= j < |RemoveAt(bs, i)| ==>
        RemoveAt(bs, i)[j].isbn in t && t[RemoveAt(bs, i)[j].isbn] == table[RemoveAt(bs, i)[j].isbn]
    ensures RowsMatch(Apply(table, Delete(bs[i].isbn)), RemoveAt(bs, i))
  {
    var rest := RemoveAt(bs, i);
    forall j | 0 <= j < |rest|
      ensures rest[j].isbn != bs[i].isbn
    {
      var from := if j < i then j else j + 1;
      assert rest[j] == bs[from];
      assert Isbns(bs)[from] != Isbns(bs)[i];
    }
  }

  /** The flags of the books left after dropping the one at `i` stay stored. */
  lemma RemoveKeepsFlags(table: map<string, Columns>, bs: seq<Book>, i: nat)
    requires Distinct(Isbns(bs)) && i < |bs| && RowsMatch(table, bs)
    requires FlagsStored(table, Isbns(bs), Flags(bs))
    ensures FlagsStored(Apply(table, Delete(bs[i].isbn)), Isbns(RemoveAt(bs, i)), Flags(RemoveAt(bs, i)))
  {
    var t := Apply(table, Delete(bs[i].isbn));
    var rest := RemoveAt(bs, i);
    RemoveKeepsRows(table, bs, i);
    forall j | 0 <= j < |rest|
      ensures t[rest[j].isbn].isBorrowed == Bit(rest[j].isBorrowed)
    {
      var from := if j < i then j else j + 1;
      assert rest[j] == bs[from];
    }
  }

  /** What a successful metadata fetch for `isbn` returns. */
  datatype Metadata = Metadata(title: string, author: string, isbn: string)

  /**
   * What `fetch_book_from_api` promises: either nothing, or a non-empty title, a non-empty author
   * and the ISBN that was asked for.
   */
  predicate FetchContract(isbn: string, fetched: Option<Metadata>)
  {
    fetched.Some? ==> fetched.value.title != [] && fetched.value.author != [] && fetched.value.isbn == isbn
  }

  /**
   * `fetch_book_from_api` once the HTTP exchanges are done: `found` says the book request
   * answered 200, `title` is the book's `title` entry and `authorName` the first author's `name`
   * entry, `None` when it is absent or could not be fetched. An empty string counts as absent.
   */
  function FetchOutcome(isbn: string, found: bool, title: Option<string>, authorName: Option<string>): (r: Option<Metadata>)
    ensures FetchContract(isbn, r)
    ensures r.Some? <==> found && title.Some? && title.value != [] && authorName.Some? && authorName.value != []
    ensures r.Some? ==> r.value.title == title.value && r.value.author == authorName.value
  {
    if !found then None
    else if title.None? || title.value == [] then None
    else if authorName.None? || authorName.value == [] then None
    else Some(Metadata(title.value, authorName.value, isbn))
  }

  class Library {
    var name: string
    var books: seq<Book>
    ghost var table: map<string, Columns>
    ghost var calls: seq<DbCall>

    /**
     * ISBNs are unique and the table holds exactly one row per book, which matches the book in
     * everything but possibly the borrowed flag.
     */
    ghost predicate Valid()
      reads this`books, this`table
    {
      && Distinct(Isbns(books))
      && RowsMatch(table, books)
    }

    /** The table holds no row besides those of the books. */
    ghost predicate NoStrayRows()
      reads this`books, this`table
    {
      table.Keys == Elements(Isbns(books))
    }

    /** Memory and table agree on every book's borrowed flag too. */
    ghost predicate InSync()
      reads this`books, this`table, books
    {
      Valid() && FlagsStored(table, Isbns(books), Flags(books))
    }

    /** In sync means every book's row is exactly what saving that book would write. */
    lemma InSyncRows()
      requires Valid()
      ensures InSync() <==> forall i :: 0 <= i < |books| ==> table[books[i].isbn] == EncodeColumns(books[i].Data())
    {
      forall i | 0 <= i < |books|
        ensures table[books[i].isbn] == EncodeColumns(books[i].Data()) <==>
                table[books[i].isbn].isBorrowed == Bit(books[i].isBorrowed)
      {
        var c := table[books[i].isbn];
        EncodeFlag(BookData(books[i].title, books[i].author, books[i].isbn, c.isBorrowed != 0, books[i].kind),
                   books[i].isBorrowed);
      }
    }

    /** A library over an empty database. */
    constructor (name: string)
      ensures this.name == name && books == [] && table == map[] && calls == []
      ensures Valid() && InSync() && NoStrayRows()
    {
      this.name := name;
      books := [];
      table := map[];
      calls := [];
    }

    /** The `total_books` property: how many books the library holds. */
    function TotalBooks(): (n: nat)
      reads this
      ensures n == |books| && n == |Isbns(books)|
    {
      |books|
    }

    method FindBookByTitle(title: string) returns (r: Book?)
      ensures var k := FirstMatch(CaseFolded, Titles(books), title);
        if k.Some? then r == books[k.value] else r == null
    {
      for i := 0 to |books|
        invariant forall j :: 0 <= j < i ==> !KeyMatches(CaseFolded, Titles(books)[j], title)
      {
        if Lower(books[i].title) == Lower(title) {
          FirstMatchAt(CaseFolded, Titles(books), title, i);
          return books[i];
        }
      }
      return null;
    }

    method FindBookByIsbn(isbn: string) returns (r: Book?)
      ensures var k := FirstMatch(Exact, Isbns(books), isbn);
        if k.Some? then r == books[k.value] else r == null
    {
      for i := 0 to |books|
        invariant forall j :: 0 <= j < i ==> !KeyMatches(Exact, Isbns(books)[j], isbn)
      {
        if books[i].isbn == isbn {
          FirstMatchAt(Exact, Isbns(books), isbn, i);
          return books[i];
        }
      }
      return null;
    }

    method FindBookByAuthor(author: string) returns (r: Book?)
      ensures var k := FirstMatch(CaseFolded, Authors(books), author);
        if k.Some? then r == books[k.value] else r == null
    {
      for i := 0 to |books|
        invariant forall j :: 0 <= j < i ==> !KeyMatches(CaseFolded, Authors(books)[j], author)
      {
        if Lower(books[i].author) == Lower(author) {
          FirstMatchAt(CaseFolded, Authors(books), author, i);
          return books[i];
        }
      }
      return null;
    }

    /**
     * `add_book`: a duplicate ISBN is refused before the database is touched; otherwise the row is
     * inserted, and the book is appended only if the insert succeeded.
     */
    method AddBook(book: Book, dbOk: bool) returns (added: bool)
      requires Valid()
      modifies this
      ensures Valid() && name == old(name)
      ensures book.isbn in Isbns(old(books)) ==>
        !added && books == old(books) && table == old(table) && calls == old(calls)
      ensures book.isbn !in Isbns(old(books)) ==>
        var call := Insert(EncodeColumns(book.Data()));
        && calls == old(calls) + [call]
        && added == dbOk
        && books == (if dbOk then old(books) + [book] else old(books))
        && table == (if dbOk then Apply(old(table), call) else old(table))
      ensures old(InSync()) ==> InSync()
      ensures old(NoStrayRows()) ==> NoStrayRows()
    {
      var existing := FindBookByIsbn(book.isbn);
      assert Valid() && (InSync() <==> old(InSync()));
      if existing != null {
        return false;
      }
      added := Store(book, dbOk);
    }

    /**
     * The common tail of `add_book` and `add_book_by_isbn`: `save_book_to_db` inserts the row, and
     * the book is appended only if that succeeded.
     */
    method Store(book: Book, dbOk: bool) returns (added: bool)
      requires Valid() && book.isbn !in Isbns(books)
      modifies this
      ensures Valid() && name == old(name)
      ensures calls == old(calls) + [Insert(EncodeColumns(book.Data()))]
      ensures added == dbOk
      ensures books == (if dbOk then old(books) + [book] else old(books))
      ensures table == (if dbOk then Apply(old(table), Insert(EncodeColumns(book.Data()))) else old(table))
      ensures old(InSync()) ==> InSync()
      ensures old(NoStrayRows()) ==> NoStrayRows()
    {
      AppendOutcome(table, books, book);
      var call := Insert(EncodeColumns(book.Data()));
      calls := calls + [call];
      table := if dbOk then Apply(table, call) else table;
      books := if dbOk then books + [book] else books;
      added := dbOk;
    }

    /**
     * `remove_book`: an absent ISBN gives False; otherwise the row is deleted, and only if that
     * succeeded is the book taken out (True); a failed delete leaves everything and gives None.
     */
    method RemoveBook(isbn: string, dbOk: bool) returns (r: Option<bool>)
      requires Valid()
      modifies this
      ensures Valid() && name == old(name)
      ensures isbn !in Isbns(old(books)) ==>
        r == Some(false) && books == old(books) && table == old(table) && calls == old(calls)
      ensures isbn in Isbns(old(books)) ==>
        && calls == old(calls) + [Delete(isbn)]
        && r == (if dbOk then Some(true) else None)
        && books == (if dbOk then RemoveAt(old(books), FirstMatch(Exact, Isbns(old(books)), isbn).value) else old(books))
        && table == (if dbOk then Apply(old(table), Delete(isbn)) else old(table))
      ensures dbOk ==> isbn !in Isbns(books)
      ensures old(InSync()) ==> InSync()
      ensures old(NoStrayRows()) ==> NoStrayRows()
    {
      var book := FindBookByIsbn(isbn);
      assert Valid() && (InSync() <==> old(InSync()));
      if book == null {
        assert isbn !in Isbns(books);
        return Some(false);
      }
      ghost var k := FirstMatch(Exact, Isbns(books), isbn).value;
      r := RemoveFound(book, k, dbOk);
    }

    /** `remove_book` once the book at position `k` has been found. */
    method RemoveFound(book: Book, ghost k: nat, dbOk: bool) returns (r: Option<bool>)
      requires Valid() && k < |books| && books[k] == book
      modifies this
      ensures Valid() && name == old(name)
      ensures calls == old(calls) + [Delete(book.isbn)]
      ensures r == (if dbOk then Some(true) else None)
      ensures books == (if dbOk then RemoveAt(old(books), k) else old(books))
      ensures table == (if dbOk then Apply(old(table), Delete(book.isbn)) else old(table))
      ensures dbOk ==> book.isbn !in Isbns(books)
      ensures old(InSync()) ==> InSync()
      ensures old(NoStrayRows()) ==> NoStrayRows()
    {
      calls := calls + [Delete(book.isbn)];
      if !dbOk {
        return None;
      }
      Discard(book, k);
      r := Some(true);
    }

    /**
     * The in-memory half of a successful delete: the row leaves the table and `self._books.remove(book)`
     * drops the first element identical to `book`, which is the one at `k`.
     */
    method Discard(book: Book, ghost k: nat)
      requires Valid() && k < |books| && books[k] == book
      modifies this
      ensures Valid() && name == old(name) && calls == old(calls)
      ensures books == RemoveAt(old(books), k) && table == Apply(old(table), Delete(book.isbn))
      ensures book.isbn !in Isbns(books)
      ensures old(InSync()) ==> InSync()
      ensures old(NoStrayRows()) ==> NoStrayRows()
    {
      RemoveOutcome(table, books, k);
      var i := IndexOf(books, book);
      assert Isbns(books)[i] == Isbns(books)[k];
      assert i == k;
      table := Apply(table, Delete(book.isbn));
      books := RemoveAt(books, i);
    }

    /**
     * `borrow_book`: an absent ISBN or an already borrowed book gives False and changes nothing.
     * Otherwise the flag is set first and then written; True only if the write succeeded, and a
     * failed write keeps the flag set and gives None.
     */
    method BorrowBook(isbn: string, dbOk: bool) returns (r: Option<bool>)
      requires Valid()
      modifies this, books
      ensures Valid() && books == old(books) && name == old(name)
      ensures isbn !in Isbns(books) ==>
        r == Some(false) && Flags(books) == old(Flags(books)) && table == old(table) && calls == old(calls)
      ensures isbn in Isbns(books) ==>
        var k := FirstMatch(Exact, Isbns(books), isbn).value;
        if old(books[k].isBorrowed) then
          r == Some(false) && Flags(books) == old(Flags(books)) && table == old(table) && calls == old(calls)
        else
          && Flags(books) == old(Flags(books))[k := true]
          && calls == old(calls) + [UpdateBorrowed(isbn, 1)]
          && table == (if dbOk then Apply(old(table), UpdateBorrowed(isbn, 1)) else old(table))
          && r == (if dbOk then Some(true) else None)
      ensures old(InSync()) ==> (InSync() <==> r != None)
      ensures old(NoStrayRows()) ==> NoStrayRows()
    {
      var book := FindBookByIsbn(isbn);
      assert Valid() && (InSync() <==> old(InSync()));
      if book == null {
        assert isbn !in Isbns(books);
        return Some(false);
      }
      ghost var k := FirstMatch(Exact, Isbns(books), isbn).value;
      r := BorrowFound(book, k, dbOk);
    }

    /** The `try` block of `borrow_book` once the book at position `k` has been found. */
    method BorrowFound(book: Book, ghost k: nat, dbOk: bool) returns (r: Option<bool>)
      requires Valid() && k < |books| && books[k] == book
      modifies this, book
      ensures Valid() && books == old(books) && name == old(name)
      ensures r == Some(false) <==> old(book.isBorrowed)
      ensures r == Some(false) ==> Flags(books) == old(Flags(books)) && table == old(table) && calls == old(calls)
      ensures r != Some(false) ==>
          && Flags(books) == old(Flags(books))[k := true]
          && calls == old(calls) + [UpdateBorrowed(book.isbn, 1)]
          && table == (if dbOk then Apply(old(table), UpdateBorrowed(book.isbn, 1)) else old(table))
          && r == (if dbOk then Some(true) else None)
      ensures old(InSync()) ==> (InSync() <==> r != None)
      ensures old(NoStrayRows()) ==> NoStrayRows()
    {
      ghost var before := Flags(books);
      var outcome := book.BorrowBook();
      if outcome.Raised? {
        assert Flags(books) == before;
        return Some(false);
      }
      FlagChanged(k, before, true);
      var ok := UpdateBookInDb(book, k, before, dbOk);
      r := if ok then Some(true) else None;
    }

    /**
     * `return_book`: an absent ISBN or a book that is not borrowed gives False and changes nothing.
     * Otherwise the flag is cleared first and then written; True only if the write succeeded, and a
     * failed write keeps the flag cleared and gives None.
     */
    method ReturnBook(isbn: string, dbOk: bool) returns (r: Option<bool>)
      requires Valid()
      modifies this, books
      ensures Valid() && books == old(books) && name == old(name)
      ensures isbn !in Isbns(books) ==>
        r == Some(false) && Flags(books) == old(Flags(books)) && table == old(table) && calls == old(calls)
      ensures isbn in Isbns(books) ==>
        var k := FirstMatch(Exact, Isbns(books), isbn).value;
        if !old(books[k].isBorrowed) then
          r == Some(false) && Flags(books) == old(Flags(books)) && table == old(table) && calls == old(calls)
        else
          && Flags(books) == old(Flags(books))[k := false]
          && calls == old(calls) + [UpdateBorrowed(isbn, 0)]
          && table == (if dbOk then Apply(old(table), UpdateBorrowed(isbn, 0)) else old(table))
          && r == (if dbOk then Some(true) else None)
      ensures old(InSync()) ==> (InSync() <==> r != None)
      ensures old(NoStrayRows()) ==> NoStrayRows()
    {
      var book := FindBookByIsbn(isbn);
      assert Valid() && (InSync() <==> old(InSync()));
      if book == null {
        assert isbn !in Isbns(books);
        return Some(false);
      }
      ghost var k := FirstMatch(Exact, Isbns(books), isbn).value;
      r := ReturnFound(book, k, dbOk);
    }

    /** The `try` block of `return_book` once the book at position `k` has been found. */
    method ReturnFound(book: Book, ghost k: nat, dbOk: bool) returns (r: Option<bool>)
      requires Valid() && k < |books| && books[k] == book
      modifies this, book
      ensures Valid() && books == old(books) && name == old(name)
      ensures r == Some(false) <==> !old(book.isBorrowed)
      ensures r == Some(false) ==> Flags(books) == old(Flags(books)) && table == old(table) && calls == old(calls)
      ensures r != Some(false) ==>
          && Flags(books) == old(Flags(books))[k := false]
          && calls == old(calls) + [UpdateBorrowed(book.isbn, 0)]
          && table == (if dbOk then Apply(old(table), UpdateBorrowed(book.isbn, 0)) else old(table))
          && r == (if dbOk then Some(true) else None)
      ensures old(InSync()) ==> (InSync() <==> r != None)
      ensures old(NoStrayRows()) ==> NoStrayRows()
    {
      ghost var before := Flags(books);
      var outcome := book.ReturnBook();
      if outcome.Raised? {
        assert Flags(books) == before;
        return Some(false);
      }
      FlagChanged(k, before, false);
      var ok := UpdateBookInDb(book, k, before, dbOk);
      r := if ok then Some(true) else None;
    }

    /**
     * `update_book_in_db`: writes the book's current flag to its row. Given the flags the table
     * held before the book at `k` changed, memory and table agree afterwards exactly when the
     * flag did not change or the write went through.
     */
    method UpdateBookInDb(book: Book, ghost k: nat, ghost before: seq<bool>, dbOk: bool) returns (ok: bool)
      requires Valid() && k < |books| && books[k] == book
      requires |before| == |books| && Flags(books) == before[k := book.isBorrowed]
      modifies this
      ensures Valid() && books == old(books) && name == old(name)
      ensures calls == old(calls) + [UpdateBorrowed(book.isbn, Bit(book.isBorrowed))]
      ensures ok == dbOk
      ensures table == if ok then Apply(old(table), UpdateBorrowed(book.isbn, Bit(book.isBorrowed))) else old(table)
      ensures table.Keys == old(table.Keys)
      ensures Distinct(Isbns(books)) && FlagsStored(old(table), Isbns(books), before) ==>
        (InSync() <==> ok || book.isBorrowed == before[k])
    {
      UpdateOutcome(table, books, k, before, book.isBorrowed, dbOk);
      var call := UpdateBorrowed(book.isbn, Bit(book.isBorrowed));
      calls := calls + [call];
      table := if dbOk then Apply(table, call) else table;
      ok := dbOk;
    }

    /**
     * `add_book_by_isbn`: an ISBN already present is refused before any fetch. Otherwise the
     * metadata is fetched; on a miss nothing else happens. On a hit a plain, available book with
     * the fetched title and author and the requested ISBN is inserted, and appended only if the
     * insert succeeded.
     */
    method AddBookByIsbn(isbn: string, fetched: Option<Metadata>, dbOk: bool) returns (added: bool)
      requires Valid() && FetchContract(isbn, fetched)
      modifies this
      ensures Valid() && name == old(name)
      ensures isbn in Isbns(old(books)) ==>
        !added && books == old(books) && table == old(table) && calls == old(calls)
      ensures isbn !in Isbns(old(books)) && fetched.None? ==>
        !added && books == old(books) && table == old(table) && calls == old(calls) + [FetchMetadata(isbn)]
      ensures isbn !in Isbns(old(books)) && fetched.Some? ==>
        var data := BookData(fetched.value.title, fetched.value.author, isbn, false, PlainBook);
        var call := Insert(EncodeColumns(data));
        && calls == old(calls) + [FetchMetadata(isbn)] + [call]
        && added == dbOk
        && table == (if dbOk then Apply(old(table), call) else old(table))
        && (!dbOk ==> books == old(books))
        && (dbOk ==> |books| == |old(books)| + 1 && books[..|old(books)|] == old(books)
                     && fresh(books[|old(books)|]) && books[|old(books)|].Data() == data)
      ensures added ==> books[|books| - 1].title != [] && books[|books| - 1].author != []
      ensures old(InSync()) ==> InSync()
      ensures old(NoStrayRows()) ==> NoStrayRows()
    {
      var existing := FindBookByIsbn(isbn);
      assert Valid() && (InSync() <==> old(InSync()));
      if existing != null {
        return false;
      }
      added := FetchAndStore(isbn, fetched, dbOk);
    }

    /** `add_book_by_isbn` past the duplicate check: fetch, then build and store a plain book. */
    method FetchAndStore(isbn: string, fetched: Option<Metadata>, dbOk: bool) returns (added: bool)
      requires Valid() && FetchContract(isbn, fetched) && isbn !in Isbns(books)
      modifies this
      ensures Valid() && name == old(name)
      ensures fetched.None? ==>
        !added && books == old(books) && table == old(table) && calls == old(calls) + [FetchMetadata(isbn)]
      ensures fetched.Some? ==>
        var data := BookData(fetched.value.title, fetched.value.author, isbn, false, PlainBook);
        var call := Insert(EncodeColumns(data));
        && calls == old(calls) + [FetchMetadata(isbn)] + [call]
        && added == dbOk
        && table == (if dbOk then Apply(old(table), call) else old(table))
        && (!dbOk ==> books == old(books))
        && (dbOk ==> |books| == |old(books)| + 1 && books[..|old(books)|] == old(books)
                     && fresh(books[|old(books)|]) && books[|old(books)|].Data() == data)
      ensures added ==> books[|books| - 1].title != [] && books[|books| - 1].author != []
      ensures old(InSync()) ==> InSync()
      ensures old(NoStrayRows()) ==> NoStrayRows()
    {
      calls := calls + [FetchMetadata(isbn)];
      if fetched.None? {
        return false;
      }
      added := StoreNew(fetched.value.title, fetched.value.author, isbn, dbOk);
    }

    /** `Book(book_info["title"], book_info["author"], isbn)` followed by the common store step. */
    method StoreNew(title: string, author: string, isbn: string, dbOk: bool) returns (added: bool)
      requires Valid() && isbn !in Isbns(books)
      modifies this
      ensures Valid() && name == old(name)
      ensures var call := Insert(EncodeColumns(BookData(title, author, isbn, false, PlainBook)));
        && calls == old(calls) + [call]
        && added == dbOk
        && table == (if dbOk then Apply(old(table), call) else old(table))
        && (!dbOk ==> books == old(books))
        && (dbOk ==> |books| == |old(books)| + 1 && books[..|old(books)|] == old(books)
                     && fresh(books[|old(books)|]) && books[|old(books)|].Data() == BookData(title, author, isbn, false, PlainBook))
      ensures old(InSync()) ==> InSync()
      ensures old(NoStrayRows()) ==> NoStrayRows()
    {
      var book := new Book(title, author, isbn);
      assert Valid() && (InSync() <==> old(InSync()));
      added := Store(book, dbOk);
      assert dbOk ==> books[..|old(books)|] == old(books);
    }

    // -------------------------------------------------------------------------
    // Proof helpers for the two flag transitions

    /** After one book's flag became `f`, the flags are the old ones with position `k` set to `f`. */
    lemma FlagChanged(k: nat, before: seq<bool>, f: bool)
      requires Valid() && k < |books| && |before| == |books|
      requires books[k].isBorrowed == f
      requires forall j :: 0 <= j < |books| && j != k ==> books[j].isBorrowed == before[j]
      ensures Flags(books) == before[k := f]
    {
    }
  }
}
