/** Sequences of handler calls, with what their contracts give together. */
module Scenarios {
  import opened Common
  import opened Schemas
  import opened Store
  import BookController
  import BorrowModel
  import BorrowController
  import TransactionController

  /** Borrowing and then returning the same record gives the stock back exactly;
      the record ends returned. */
  method BorrowThenReturn(db: Database, req: BorrowController.BorrowRequest, borrowedAt: int, newId: Id, returnedAt: int)
    returns (borrowed: Result<Borrow>, returned: Result<Borrow>)
    requires newId !in db.borrows && borrowedAt <= returnedAt
    modifies db
    ensures BorrowController.BorrowRejection(old(db.users), old(db.books), req, borrowedAt).None? &&
            old(db.books[req.borrowedBook.value]).availableCopies >= 2 ==>
      && borrowed.Ok? && returned.Ok?
      && returned.value.status == Returned && returned.value.returnDate == Some(returnedAt)
      && db.books == old(db.books)
      && db.borrows == old(db.borrows)[newId := returned.value]
  {
    borrowed := BorrowController.BorrowBook(db, req, borrowedAt, newId);
    if borrowed.Ok? {
      returned := BorrowController.ReturnBook(db, newId, returnedAt);
    } else {
      returned := borrowed;
    }
  }

  /** A returned record cannot be returned again, and the second attempt writes nothing. */
  method ReturnTwice(db: Database, borrowId: Id, now: int, later: int)
    returns (first: Result<Borrow>, second: Result<Borrow>)
    requires borrowId in db.borrows ==> db.borrows[borrowId].borrowedDate <= now <= later
    modifies db
    ensures first.Ok? ==>
      && second == Err(BadRequest(BorrowController.AlreadyReturnedMessage))
      && borrowId in db.borrows && db.borrows[borrowId] == first.value
  {
    first := BorrowController.ReturnBook(db, borrowId, now);
    second := BorrowController.ReturnBook(db, borrowId, later);
  }

  /** Deleting a book that an open borrow refers to leaves the borrow dangling:
      its return is refused with "Book not found" and writes nothing. */
  method DeleteThenReturn(db: Database, borrowId: Id, now: int)
    returns (deleted: Result<()>, returned: Result<Borrow>)
    requires borrowId in db.borrows && db.borrows[borrowId].borrowedBook in db.books
    requires db.borrows[borrowId].borrowedDate <= now
    modifies db
    ensures deleted == Ok(())
    ensures returned == Err(NotFound(BorrowModel.BookNotFoundMessage))
    ensures db.borrows == old(db.borrows)
    ensures db.books == old(db.books) - {old(db.borrows[borrowId]).borrowedBook}
  {
    deleted := BookController.DeleteBook(db, db.borrows[borrowId].borrowedBook);
    returned := BorrowController.ReturnBook(db, borrowId, now);
  }

  /** Deleting a purchase restores the buyer's transaction list but not the stock. */
  method PurchaseThenDelete(db: Database, req: TransactionController.PurchaseRequest, newId: Id)
    returns (bought: Result<Transaction>, deleted: Result<()>)
    requires newId !in db.transactions
    modifies db
    ensures TransactionController.PurchaseRejection(old(db.users), old(db.books), req).None? &&
            newId !in old(db.users[req.userId.value]).transactions ==>
      var bookId := req.bookId.value;
      && deleted == Ok(())
      && db.transactions == old(db.transactions)
      && db.users == old(db.users)
      && db.books == old(db.books)[bookId := old(db.books[bookId]).(availableCopies := old(db.books[bookId]).availableCopies - req.quantity.value)]
  {
    ghost var users0, books0 := db.users, db.books;
    ghost var accepted := TransactionController.PurchaseRejection(users0, books0, req).None?;
    bought := TransactionController.CreateTransaction(db, req, newId);
    ghost var users1 := db.users;
    assert accepted ==> newId in db.transactions && db.transactions[newId].user == req.userId.value;
    deleted := TransactionController.DeleteTransaction(db, newId);
    if accepted && newId !in users0[req.userId.value].transactions {
      var userId := req.userId.value;
      var list := users0[userId].transactions;
      TransactionController.PullUndoesPush(list, newId);
      TransactionController.PullAbsent(list, newId);
      assert userId in users1 && TransactionController.Pull(users1[userId].transactions, newId) == list;
      assert db.users == users1[userId := users1[userId].(transactions := list)];
      assert users1[userId].(transactions := list) == users0[userId];
      assert users1 == users0 || users1 == users0[userId := users1[userId]];
      assert users0[userId := users0[userId]] == users0;
    }
  }
}
