/** borrowController.js: the borrowBook and returnBook handlers. Each lowers or
    raises the stock itself and then saves the borrow, whose pre-save hook
    (BorrowModel.SaveBorrow) adjusts the stock once more. */
module BorrowController {
  import opened Common
  import opened Schemas
  import opened Store
  import opened BorrowModel

  const RequiredMessage: string := "User ID, Book ID, and Expected Return Date are required"
  const InvalidDateMessage: string := "Invalid expected return date"
  const UserNotFoundMessage: string := "User not found"
  const NoAvailableCopiesMessage: string := "No available copies of the book"
  const BorrowNotFoundMessage: string := "Borrow record not found"
  const AlreadyReturnedMessage: string := "Book already returned"

  /** `expected_return_date` of the request: falsy, or given and then parsed by
      `new Date(...)` into milliseconds or into an invalid date. */
  datatype DateField = Absent | Given(parsed: Option<int>)

  /** The body of a borrow request; a falsy identifier is `None`. */
  datatype BorrowRequest = BorrowRequest(
    borrowedBy: Option<Id>,
    borrowedBook: Option<Id>,
    expectedReturnDate: DateField)

  predicate HasRequiredFields(req: BorrowRequest)
  {
    req.borrowedBy.Some? && req.borrowedBook.Some? && req.expectedReturnDate.Given?
  }

  /** A parsed date that is not earlier than now. */
  predicate DateAcceptable(req: BorrowRequest, now: int)
    requires HasRequiredFields(req)
  {
    req.expectedReturnDate.parsed.Some? && req.expectedReturnDate.parsed.value >= now
  }

  /** The checks borrowBook makes, in order, before it writes anything:
      `None` when all pass, otherwise the reply of the first that fails. */
  function BorrowRejection(users: map<Id, User>, books: map<Id, Book>, req: BorrowRequest, now: int): (rejection: Option<Error>)
    ensures rejection.None? <==>
      && HasRequiredFields(req) && DateAcceptable(req, now)
      && req.borrowedBy.value in users
      && req.borrowedBook.value in books
      && books[req.borrowedBook.value].availableCopies > 0
    // input validation comes before any lookup
    ensures !HasRequiredFields(req) ==> rejection == Some(BadRequest(RequiredMessage))
    ensures HasRequiredFields(req) && !DateAcceptable(req, now) ==> rejection == Some(BadRequest(InvalidDateMessage))
    ensures rejection.Some? && rejection.value.NotFound? ==>
      HasRequiredFields(req) && DateAcceptable(req, now) &&
      (req.borrowedBy.value !in users || req.borrowedBook.value !in books)
  {
    if !HasRequiredFields(req) then Some(BadRequest(RequiredMessage))
    else if !DateAcceptable(req, now) then Some(BadRequest(InvalidDateMessage))
    else if req.borrowedBy.value !in users then Some(NotFound(UserNotFoundMessage))
    else if req.borrowedBook.value !in books then Some(NotFound(BookNotFoundMessage))
    else if books[req.borrowedBook.value].availableCopies <= 0 then Some(BadRequest(NoAvailableCopiesMessage))
    else None
  }

  /** `new Borrow({borrowed_by, borrowed_book, expected_return_date})` with the
      schema's defaults; `total_price` is left unset. */
  function NewBorrow(user: Id, book: Id, now: int, expected: int): Borrow
  {
    Borrow(user, book, now, expected, None, Borrowed, 0.0, None, 0.0)
  }

  /** borrowBook. `now` is the clock, `newId` the ObjectId given to the new record. */
  method BorrowBook(db: Database, req: BorrowRequest, now: int, newId: Id) returns (r: Result<Borrow>)
    requires newId !in db.borrows
    modifies db
    ensures db.users == old(db.users) && db.transactions == old(db.transactions)
    ensures StockNonNegative(old(db.books)) ==> StockNonNegative(db.books)
    ensures BorrowRejection(old(db.users), old(db.books), req, now).Some? ==>
      && r == Err(BorrowRejection(old(db.users), old(db.books), req, now).value)
      && db.books == old(db.books) && db.borrows == old(db.borrows)
    ensures BorrowRejection(old(db.users), old(db.books), req, now).None? ==>
      var bookId := req.borrowedBook.value;
      var book := old(db.books[bookId]);
      var borrow := NewBorrow(req.borrowedBy.value, bookId, now, req.expectedReturnDate.parsed.value);
      if book.availableCopies >= 2 then
        // the handler and the hook each take a copy
        && r == Ok(borrow)
        && db.books == old(db.books)[bookId := book.(availableCopies := book.availableCopies - 2)]
        && db.borrows == old(db.borrows)[newId := borrow]
      else
        // the last copy: the handler's write stands, the hook refuses the save
        && r == Err(ServerError(NoCopiesMessage))
        && db.books == old(db.books)[bookId := book.(availableCopies := 0)]
        && db.borrows == old(db.borrows)
  {
    var rejection := BorrowRejection(db.users, db.books, req, now);
    if rejection.Some? {
      return Err(rejection.value);
    }
    var bookId := req.borrowedBook.value;
    var borrow := NewBorrow(req.borrowedBy.value, bookId, now, req.expectedReturnDate.parsed.value);
    var book := db.books[bookId];
    book := book.(availableCopies := book.availableCopies - 1);
    db.books := db.books[bookId := book];
    r := SaveBorrow(db, newId, borrow, true);
  }

  /** Whole days late, rounded down: Math.floor((now - expected) / day). */
  function LateDays(expected: int, now: int): (days: int)
    ensures days * DayMs <= now - expected < (days + 1) * DayMs
    ensures expected <= now ==> days >= 0
  {
    (now - expected) / DayMs
  }

  /** The hook's ceiling and the handler's floor agree exactly on whole days and
      otherwise differ by one. */
  lemma CeilingAndFloorDays(start: int, end: int)
    ensures (end - start) % DayMs == 0 ==> CalculateDays(start, end) == LateDays(start, end)
    ensures (end - start) % DayMs != 0 ==> CalculateDays(start, end) == LateDays(start, end) + 1
  {
  }

  /** The fine returnBook computes: whole late days times the book's `borrowed_fine`,
      nothing when the book is not late. */
  function ReturnFine(now: int, expected: int, borrowedFine: real): (fine: real)
    ensures fine == 0.0 <==> now - expected < DayMs || borrowedFine == 0.0
    ensures borrowedFine >= 0.0 ==> fine >= 0.0
    ensures now > expected ==> fine == LateDays(expected, now) as real * borrowedFine
  {
    if now > expected then
      var days := LateDays(expected, now);
      assert days != 0 && borrowedFine != 0.0 ==> days as real * borrowedFine != 0.0 by {
        if days != 0 && borrowedFine != 0.0 {
          assert days as real != 0.0;
        }
      }
      days as real * borrowedFine
    else 0.0
  }

  /** Returning later never costs less. */
  lemma {:induction false} ReturnFineMonotone(now1: int, now2: int, expected: int, borrowedFine: real)
    requires now1 <= now2 && borrowedFine >= 0.0
    ensures ReturnFine(now1, expected, borrowedFine) <= ReturnFine(now2, expected, borrowedFine)
  {
    if now1 > expected {
      var d1, d2 := LateDays(expected, now1), LateDays(expected, now2);
      assert d1 <= d2;
      assert (d2 - d1) as real * borrowedFine >= 0.0;
    }
  }

  /** The checks returnBook makes, in order: borrow, then book, then whether it
      was already returned. */
  function ReturnRejection(borrows: map<Id, Borrow>, books: map<Id, Book>, borrowId: Id): (rejection: Option<Error>)
    ensures rejection.None? <==>
      borrowId in borrows && borrows[borrowId].borrowedBook in books && borrows[borrowId].returnDate.None?
    ensures borrowId !in borrows ==> rejection == Some(NotFound(BorrowNotFoundMessage))
    ensures borrowId in borrows && borrows[borrowId].borrowedBook !in books ==>
      rejection == Some(NotFound(BookNotFoundMessage))
    ensures borrowId in borrows && borrows[borrowId].borrowedBook in books && borrows[borrowId].returnDate.Some? ==>
      rejection == Some(BadRequest(AlreadyReturnedMessage))
  {
    if borrowId !in borrows then Some(NotFound(BorrowNotFoundMessage))
    else if borrows[borrowId].borrowedBook !in books then Some(NotFound(BookNotFoundMessage))
    else if borrows[borrowId].returnDate.Some? then Some(BadRequest(AlreadyReturnedMessage))
    else None
  }

  /** The handler's own update of the borrow document. */
  function CloseBorrow(b: Borrow, now: int, fine: real): Borrow
  {
    b.(returnDate := Some(now), totalBorrowedFine := fine, status := Returned)
  }

  /** returnBook. `now` is the clock; it is not earlier than the borrow's creation. */
  method ReturnBook(db: Database, borrowId: Id, now: int) returns (r: Result<Borrow>)
    requires borrowId in db.borrows ==> db.borrows[borrowId].borrowedDate <= now
    modifies db
    ensures db.users == old(db.users) && db.transactions == old(db.transactions)
    ensures StockNonNegative(old(db.books)) ==> StockNonNegative(db.books)
    ensures ReturnRejection(old(db.borrows), old(db.books), borrowId).Some? ==>
      && r == Err(ReturnRejection(old(db.borrows), old(db.books), borrowId).value)
      && db.books == old(db.books) && db.borrows == old(db.borrows)
    ensures ReturnRejection(old(db.borrows), old(db.books), borrowId).None? ==>
      var b := old(db.borrows[borrowId]);
      var book := old(db.books[b.borrowedBook]);
      var closed := SettleReturn(CloseBorrow(b, now, ReturnFine(now, b.expectedReturnDate, book.borrowedFine)), book.borrowFine);
      && r == Ok(closed)
      && closed.status == Returned && closed.returnDate == Some(now)
      // the handler and the hook each give a copy back
      && db.books == old(db.books)[b.borrowedBook := book.(availableCopies := book.availableCopies + 2)]
      && db.borrows == old(db.borrows)[borrowId := closed]
    // a book without the hook's `borrow_fine` keeps the handler's fine
    ensures ReturnRejection(old(db.borrows), old(db.books), borrowId).None? ==>
      var b := old(db.borrows[borrowId]);
      var book := old(db.books[b.borrowedBook]);
      !TruthyReal(book.borrowFine) ==>
        r.Ok? && r.value.totalBorrowedFine == ReturnFine(now, b.expectedReturnDate, book.borrowedFine)
  {
    var rejection := ReturnRejection(db.borrows, db.books, borrowId);
    if rejection.Some? {
      return Err(rejection.value);
    }
    var borrow := db.borrows[borrowId];
    var book := db.books[borrow.borrowedBook];
    var fine := ReturnFine(now, borrow.expectedReturnDate, book.borrowedFine);
    borrow := CloseBorrow(borrow, now, fine);
    book := book.(availableCopies := book.availableCopies + 1);
    db.books := db.books[borrow.borrowedBook := book];
    r := SaveBorrow(db, borrowId, borrow, false);
  }
}
