/** The first snapshot of the catalog: a single `Book` class whose borrowed flag changes in place. */
module StepOne {
  import opened Common
  import Lending

  class Book {
    const title: string
    const author: string
    const isbn: string
    var isBorrowed: bool

    /** A new book carries the given fields and is not borrowed. */
    constructor (title: string, author: string, isbn: string)
      ensures this.title == title && this.author == author && this.isbn == isbn
      ensures !isBorrowed
    {
      this.title := title;
      this.author := author;
      this.isbn := isbn;
      isBorrowed := false;
    }

    method BorrowBook() returns (r: Outcome<bool>)
      modifies this
      ensures isBorrowed == Lending.Borrow(old(isBorrowed)).borrowed
      ensures !old(isBorrowed) ==> isBorrowed && r == Returned(true)
      ensures old(isBorrowed) ==> isBorrowed && r == Raised(title + " is already borrowed.")
    {
      if !isBorrowed {
        isBorrowed := true;
        return Returned(true);
      }
      r := Raised(title + " is already borrowed.");
    }

    method ReturnBook() returns (r: Outcome<bool>)
      modifies this
      ensures isBorrowed == Lending.Return(old(isBorrowed)).borrowed
      ensures old(isBorrowed) ==> !isBorrowed && r == Returned(true)
      ensures !old(isBorrowed) ==> !isBorrowed && r == Raised(title + " was not borrowed.")
    {
      if isBorrowed {
        isBorrowed := false;
        return Returned(true);
      }
      r := Raised(title + " was not borrowed.");
    }

    /** `"{title} by {author} (ISBN: {isbn})"`. */
    function DisplayInfo(): (r: string)
      ensures |r| == |title| + |author| + |isbn| + 13
      ensures r[..|title|] == title
      ensures r[|r| - |isbn| - 1..] == isbn + ")"
    {
      title + " by " + author + " (ISBN: " + isbn + ")"
    }
  }
}
