/** The Mongoose schemas of the four collections the core touches, as values.
    Only the fields the core reads or writes are kept. */
module Schemas {
  import opened Common

  /** bookModel.js. `borrowedFine` is the schema's `borrowed_fine`;
      `borrowFine` is the differently spelled `borrow_fine` that the borrow
      pre-save hook reads, which the schema does not declare and so is
      normally absent. */
  datatype Book = Book(
    title: string,
    author: string,
    isbn: string,
    totalCopies: int,
    availableCopies: int,
    price: real,
    borrowedFine: real,
    borrowFine: Option<real>)

  datatype Role = AdminRole | UserRole

  datatype AccountStatus = Active | Inactive

  /** userModel.js */
  datatype User = User(
    role: Role,
    walletBalance: real,
    transactions: seq<Id>,
    borrowedBooks: seq<Id>,
    purchasedBooks: seq<Id>,
    status: AccountStatus)

  datatype BorrowStatus = Borrowed | Returned

  /** borrowModel.js. Dates are milliseconds since the epoch; `totalPrice` is
      required by the schema but may be absent, since borrowBook never sets it. */
  datatype Borrow = Borrow(
    borrowedBy: Id,
    borrowedBook: Id,
    borrowedDate: int,
    expectedReturnDate: int,
    returnDate: Option<int>,
    status: BorrowStatus,
    totalBorrowedFine: real,
    totalPrice: Option<real>,
    totalBorrowPrice: real)

  datatype TransactionStatus = TxSuccess | TxFailed | TxPending

  /** transactionModel.js, with the price the controller computes. */
  datatype Transaction = Transaction(
    book: Id,
    user: Id,
    quantity: int,
    totalPrice: real,
    status: TransactionStatus)

  /** Copies of a book that are out on loan or sold, as the catalog counts them. */
  function CheckedOut(b: Book): int
  {
    b.totalCopies - b.availableCopies
  }

  /** No book shows a negative stock. */
  ghost predicate StockNonNegative(books: map<Id, Book>)
  {
    forall id :: id in books ==> books[id].availableCopies >= 0
  }
}
