/** borrowModel.js: the day counter and the borrow pre-save hook, which moves
    a copy out of or back into stock and settles the fine or the refund when a
    returned borrow is saved. */
module BorrowModel {
  import opened Common
  import opened Schemas
  import opened Store

  const BookNotFoundMessage: string := "Book not found"
  const NoCopiesMessage: string := "No copies available to borrow"

  /** calculateDays: Math.ceil((end - start) / day), i.e. the number of days
      from start to end with a started day counting as a whole one. */
  function CalculateDays(start: int, end: int): (days: int)
    ensures (days - 1) * DayMs < end - start <= days * DayMs
    ensures start <= end ==> days >= 0
    ensures end - start == days * DayMs <==> (end - start) % DayMs == 0
  {
    -((start - end) / DayMs)
  }

  /** A later start never yields more days to the same end. */
  lemma CalculateDaysAntitone(a: int, b: int, end: int)
    requires a <= b
    ensures CalculateDays(b, end) <= CalculateDays(a, end)
  {
  }

  /** The early-return proration: the price less a daily share for each unused day,
      never below zero. */
  function ProratedPrice(price: real, unusedDays: int, totalDays: int): (newPrice: real)
    requires totalDays > 0
    ensures newPrice >= 0.0
    ensures price >= 0.0 && unusedDays >= 0 ==> newPrice <= price
    ensures price >= 0.0 && 0 <= unusedDays <= totalDays ==>
      newPrice == price * (totalDays - unusedDays) as real / totalDays as real
    ensures price >= 0.0 && unusedDays >= totalDays ==> newPrice == 0.0
  {
    var dailyPrice := price / totalDays as real;
    var reduced := price - unusedDays as real * dailyPrice;
    if reduced > 0.0 then reduced else 0.0
  }

  /** The pre-save hook only reads the chronology of a borrow that is being
      returned early; a return cannot come before the borrow itself. */
  predicate ReturnNotBeforeBorrow(b: Borrow)
  {
    b.returnDate.Some? ==> b.borrowedDate <= b.returnDate.value
  }

  /** The fine-or-refund part of the hook for a borrow whose return date is set.
      `borrowFine` is the book's `borrow_fine` field as the hook reads it. */
  function SettleReturn(b: Borrow, borrowFine: Option<real>): (settled: Borrow)
    requires b.returnDate.Some?
    requires b.returnDate.value < b.expectedReturnDate ==> ReturnNotBeforeBorrow(b)
    // only the fine and the borrow price can change
    ensures settled == b.(totalBorrowedFine := settled.totalBorrowedFine, totalBorrowPrice := settled.totalBorrowPrice)
    // late, with a truthy borrow_fine: started late days times the fine; the price is kept
    ensures b.returnDate.value > b.expectedReturnDate && TruthyReal(borrowFine) ==>
      && settled.totalBorrowedFine == CalculateDays(b.expectedReturnDate, b.returnDate.value) as real * borrowFine.value
      && settled.totalBorrowPrice == b.totalBorrowPrice
    ensures b.returnDate.value > b.expectedReturnDate && TruthyReal(borrowFine) && borrowFine.value > 0.0 ==>
      settled.totalBorrowedFine >= borrowFine.value
    // late without a truthy borrow_fine: nothing is charged by the hook
    ensures b.returnDate.value > b.expectedReturnDate && !TruthyReal(borrowFine) ==> settled == b
    // early: the fine is kept and the price is prorated to the days used, within [0, price]
    ensures b.returnDate.value < b.expectedReturnDate ==>
      && settled.totalBorrowedFine == b.totalBorrowedFine
      && settled.totalBorrowPrice >= 0.0
      && (b.totalBorrowPrice >= 0.0 ==> settled.totalBorrowPrice <= b.totalBorrowPrice)
    ensures b.returnDate.value < b.expectedReturnDate ==>
      var unusedDays := CalculateDays(b.returnDate.value, b.expectedReturnDate);
      var totalDays := CalculateDays(b.borrowedDate, b.expectedReturnDate);
      && 0 <= unusedDays <= totalDays && totalDays > 0
      && settled.totalBorrowPrice == ProratedPrice(b.totalBorrowPrice, unusedDays, totalDays)
    // on the due moment: neither branch
    ensures b.returnDate.value == b.expectedReturnDate ==> settled == b
  {
    var ret := b.returnDate.value;
    var overdueDays := CalculateDays(b.expectedReturnDate, ret);
    if ret > b.expectedReturnDate && TruthyReal(borrowFine) then
      assert overdueDays >= 1;
      assert borrowFine.value > 0.0 ==> overdueDays as real * borrowFine.value >= borrowFine.value by {
        if borrowFine.value > 0.0 {
          assert (overdueDays - 1) as real * borrowFine.value >= 0.0;
        }
      }
      b.(totalBorrowedFine := overdueDays as real * borrowFine.value)
    else if ret < b.expectedReturnDate then
      var unusedDays := CalculateDays(ret, b.expectedReturnDate);
      var totalDays := CalculateDays(b.borrowedDate, b.expectedReturnDate);
      CalculateDaysAntitone(b.borrowedDate, ret, b.expectedReturnDate);
      assert 0 <= unusedDays <= totalDays && totalDays > 0;
      var newPrice := ProratedPrice(b.totalBorrowPrice, unusedDays, totalDays);
      b.(totalBorrowPrice := newPrice)
    else
      b
  }

  /** `borrow.save()`: the pre-save hook, then the write of the borrow document
      under `id`. `isNew` is Mongoose's `this.isNew`. A failing hook aborts the
      save, so the borrow document is not written; a book write the hook already
      made stays. */
  method SaveBorrow(db: Database, id: Id, b: Borrow, isNew: bool) returns (r: Result<Borrow>)
    requires !isNew && b.returnDate.Some? && b.returnDate.value < b.expectedReturnDate ==> ReturnNotBeforeBorrow(b)
    modifies db
    ensures db.users == old(db.users) && db.transactions == old(db.transactions)
    ensures b.borrowedBook !in old(db.books) ==>
      && r == Err(ServerError(BookNotFoundMessage))
      && db.books == old(db.books) && db.borrows == old(db.borrows)
    ensures b.borrowedBook in old(db.books) && isNew ==>
      var book := old(db.books[b.borrowedBook]);
      if book.availableCopies > 0 then
        && r == Ok(b)
        && db.books == old(db.books)[b.borrowedBook := book.(availableCopies := book.availableCopies - 1)]
        && db.borrows == old(db.borrows)[id := b]
      else
        && r == Err(ServerError(NoCopiesMessage))
        && db.books == old(db.books) && db.borrows == old(db.borrows)
    ensures b.borrowedBook in old(db.books) && !isNew && b.returnDate.Some? ==>
      var book := old(db.books[b.borrowedBook]);
      && r == Ok(SettleReturn(b, book.borrowFine))
      && db.books == old(db.books)[b.borrowedBook := book.(availableCopies := book.availableCopies + 1)]
      && db.borrows == old(db.borrows)[id := SettleReturn(b, book.borrowFine)]
    ensures b.borrowedBook in old(db.books) && !isNew && b.returnDate.None? ==>
      && r == Ok(b)
      && db.books == old(db.books) && db.borrows == old(db.borrows)[id := b]
  {
    if b.borrowedBook !in db.books {
      return Err(ServerError(BookNotFoundMessage));
    }
    var book := db.books[b.borrowedBook];
    var doc := b;
    if isNew {
      if book.availableCopies > 0 {
        book := book.(availableCopies := book.availableCopies - 1);
        db.books := db.books[b.borrowedBook := book];
      } else {
        return Err(ServerError(NoCopiesMessage));
      }
    } else if b.returnDate.Some? {
      book := book.(availableCopies := book.availableCopies + 1);
      db.books := db.books[b.borrowedBook := book];
      doc := SettleReturn(b, book.borrowFine);
    }
    db.borrows := db.borrows[id := doc];
    r := Ok(doc);
  }
}
