/** transactionController.js: createTransaction and deleteTransaction. A purchase
    prices the books, takes them out of stock and records the transaction on the
    user; deleting it drops the reference again. No wallet is involved. */
module TransactionController {
  import opened Common
  import opened Schemas
  import opened Store
  import opened UserModel

  const RequiredMessage: string := "All fields (userId, bookId, quantity) are required."
  const UserNotFoundMessage: string := "User not found."
  const BookNotFoundMessage: string := "Book not found."
  const NotEnoughCopiesMessage: string := "Not enough copies available for purchase."
  const ServerErrorMessage: string := "Server error. Please try again later."
  const TransactionNotFoundMessage: string := "Transaction not found"

  /** The body of a purchase request; a missing field is `None`. */
  datatype PurchaseRequest = PurchaseRequest(userId: Option<Id>, bookId: Option<Id>, quantity: Option<int>)

  /** `!userId || !bookId || !quantity` is false: a quantity of 0 counts as missing. */
  predicate HasRequiredFields(req: PurchaseRequest)
  {
    req.userId.Some? && req.bookId.Some? && TruthyInt(req.quantity)
  }

  /** The checks createTransaction makes, in order, before it writes anything. */
  function PurchaseRejection(users: map<Id, User>, books: map<Id, Book>, req: PurchaseRequest): (rejection: Option<Error>)
    ensures rejection.None? <==>
      && HasRequiredFields(req)
      && req.userId.value in users
      && req.bookId.value in books
      && books[req.bookId.value].availableCopies >= req.quantity.value
    ensures !HasRequiredFields(req) ==> rejection == Some(BadRequest(RequiredMessage))
    ensures HasRequiredFields(req) && req.userId.value in users && req.bookId.value in books
            && books[req.bookId.value].availableCopies < req.quantity.value ==>
      rejection == Some(BadRequest(NotEnoughCopiesMessage))
  {
    if !HasRequiredFields(req) then Some(BadRequest(RequiredMessage))
    else if req.userId.value !in users then Some(NotFound(UserNotFoundMessage))
    else if req.bookId.value !in books then Some(NotFound(BookNotFoundMessage))
    else if books[req.bookId.value].availableCopies < req.quantity.value then Some(BadRequest(NotEnoughCopiesMessage))
    else None
  }

  /** The transaction document createTransaction saves. */
  function NewTransaction(user: Id, bookId: Id, book: Book, quantity: int): Transaction
  {
    Transaction(bookId, user, quantity, book.price * quantity as real, TxSuccess)
  }

  /** createTransaction. `newId` is the ObjectId of the new transaction. The user
      save runs the user pre-save hook; if it refuses, the transaction and the
      stock change are already written and the reply is a 500. */
  method CreateTransaction(db: Database, req: PurchaseRequest, newId: Id) returns (r: Result<Transaction>)
    requires newId !in db.transactions
    modifies db
    ensures db.borrows == old(db.borrows)
    ensures StockNonNegative(old(db.books)) ==> StockNonNegative(db.books)
    // the wallet is never read or written
    ensures db.users.Keys == old(db.users.Keys)
    ensures forall id :: id in db.users ==> db.users[id].walletBalance == old(db.users[id]).walletBalance
    ensures PurchaseRejection(old(db.users), old(db.books), req).Some? ==>
      && r == Err(PurchaseRejection(old(db.users), old(db.books), req).value)
      && db.books == old(db.books) && db.users == old(db.users) && db.transactions == old(db.transactions)
    ensures PurchaseRejection(old(db.users), old(db.books), req).None? ==>
      var userId, bookId, quantity := req.userId.value, req.bookId.value, req.quantity.value;
      var book := old(db.books[bookId]);
      var user := old(db.users[userId]);
      var tx := NewTransaction(userId, bookId, book, quantity);
      var recorded := user.(transactions := user.transactions + [newId]);
      && tx.totalPrice == book.price * quantity as real && tx.status == TxSuccess
      && db.transactions == old(db.transactions)[newId := tx]
      && db.books == old(db.books)[bookId := book.(availableCopies := book.availableCopies - quantity)]
      && db.books[bookId].availableCopies >= 0
      && (PreSave(recorded).None? ==> r == Ok(tx) && db.users == old(db.users)[userId := recorded])
      && (PreSave(recorded).Some? ==> r == Err(ServerError(ServerErrorMessage)) && db.users == old(db.users))
  {
    var rejection := PurchaseRejection(db.users, db.books, req);
    if rejection.Some? {
      return Err(rejection.value);
    }
    var userId, bookId, quantity := req.userId.value, req.bookId.value, req.quantity.value;
    var user := db.users[userId];
    var book := db.books[bookId];
    var tx := NewTransaction(userId, bookId, book, quantity);
    db.transactions := db.transactions[newId := tx];
    book := book.(availableCopies := book.availableCopies - quantity);
    db.books := db.books[bookId := book];
    user := user.(transactions := user.transactions + [newId]);
    if PreSave(user).Some? {
      return Err(ServerError(ServerErrorMessage));
    }
    db.users := db.users[userId := user];
    r := Ok(tx);
  }

  /** MongoDB's `$pull`: every occurrence of `x` removed, the rest kept in order. */
  function Pull(ids: seq<Id>, x: Id): (pulled: seq<Id>)
    ensures multiset(pulled) == multiset(ids)[x := 0]
    ensures x !in pulled
  {
    if ids == [] then []
    else
      assert ids == [ids[0]] + ids[1..];
      if ids[0] == x then Pull(ids[1..], x) else [ids[0]] + Pull(ids[1..], x)
  }

  /** Pulling an absent id changes nothing. */
  lemma {:induction false} PullAbsent(ids: seq<Id>, x: Id)
    requires x !in ids
    ensures Pull(ids, x) == ids
  {
    if ids != [] {
      PullAbsent(ids[1..], x);
    }
  }

  /** `$pull` works element by element: the order of what is kept is the original one. */
  lemma {:induction false} PullConcat(a: seq<Id>, b: seq<Id>, x: Id)
    ensures Pull(a + b, x) == Pull(a, x) + Pull(b, x)
  {
    if a == [] {
      assert a + b == b;
    } else {
      assert (a + b)[1..] == a[1..] + b;
      PullConcat(a[1..], b, x);
    }
  }

  /** Deleting a transaction undoes the append createTransaction made to a list
      that did not already hold its id. */
  lemma PullUndoesPush(ids: seq<Id>, x: Id)
    requires x !in ids
    ensures Pull(ids + [x], x) == ids
  {
    PullConcat(ids, [x], x);
    PullAbsent(ids, x);
    assert Pull([x], x) == [];
  }

  /** deleteTransaction: `findByIdAndDelete`, then `$pull` of the id from the
      owner's list (a no-op when the owner is gone; no user hook runs). Stock is
      not given back. */
  method DeleteTransaction(db: Database, transactionId: Id) returns (r: Result<()>)
    modifies db
    ensures db.books == old(db.books) && db.borrows == old(db.borrows)
    ensures transactionId !in old(db.transactions) ==>
      && r == Err(NotFound(TransactionNotFoundMessage))
      && db.transactions == old(db.transactions) && db.users == old(db.users)
    ensures transactionId in old(db.transactions) ==>
      var owner := old(db.transactions[transactionId]).user;
      && r == Ok(())
      && db.transactions == old(db.transactions) - {transactionId}
      && (owner in old(db.users) ==>
            var user := old(db.users[owner]);
            db.users == old(db.users)[owner := user.(transactions := Pull(user.transactions, transactionId))])
      && (owner !in old(db.users) ==> db.users == old(db.users))
  {
    if transactionId !in db.transactions {
      return Err(NotFound(TransactionNotFoundMessage));
    }
    var tx := db.transactions[transactionId];
    db.transactions := db.transactions - {transactionId};
    if tx.user in db.users {
      var user := db.users[tx.user];
      db.users := db.users[tx.user := user.(transactions := Pull(user.transactions, transactionId))];
    }
    r := Ok(());
  }
}
