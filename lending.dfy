/**
 * The borrow state machine that every snapshot's `Book` implements: a two-state flag whose two
 * transitions are each guarded; a transition attempted in the wrong state is rejected (the Python
 * method raises) and leaves the flag as it was.
 */
module Lending {

  /** What a transition attempt does: whether it was accepted, and the flag afterwards. */
  datatype Transition = Transition(accepted: bool, borrowed: bool)

  /**
   * `borrow_book`: accepted exactly when the book is available, and the book is borrowed
   * afterwards; a rejected attempt leaves the flag as it was.
   */
  function Borrow(borrowed: bool): (t: Transition)
    ensures t.accepted <==> !borrowed
    ensures t.borrowed
    ensures !t.accepted ==> t.borrowed == borrowed
  {
    if !borrowed then Transition(true, true) else Transition(false, borrowed)
  }

  /**
   * `return_book`: accepted exactly when the book is borrowed, and the book is available
   * afterwards; a rejected attempt leaves the flag as it was.
   */
  function Return(borrowed: bool): (t: Transition)
    ensures t.accepted <==> borrowed
    ensures !t.borrowed
    ensures !t.accepted ==> t.borrowed == borrowed
  {
    if borrowed then Transition(true, false) else Transition(false, borrowed)
  }

  /** A successful borrow followed by a return is accepted and restores the original state. */
  lemma ReturnUndoesBorrow(borrowed: bool)
    requires Borrow(borrowed).accepted
    ensures Return(Borrow(borrowed).borrowed) == Transition(true, borrowed)
  {
  }

  /** Borrowing twice in a row without a return: the second attempt is rejected. */
  lemma SecondBorrowRejected(borrowed: bool)
    ensures !Borrow(Borrow(borrowed).borrowed).accepted
  {
  }

  /** From an available book, borrow, return, borrow are all accepted in sequence. */
  lemma BorrowReturnBorrow()
    ensures var t1 := Borrow(false);
      var t2 := Return(t1.borrowed);
      var t3 := Borrow(t2.borrowed);
      t1.accepted && t2.accepted && t3.accepted && t3.borrowed
  {
  }
}
