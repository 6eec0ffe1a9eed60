/** bookController.js: createBook and editBook, the catalog writes that decide
    the ISBN format, ISBN uniqueness and the copy counters. */
module BookController {
  import opened Common
  import opened Schemas
  import opened Store

  const RequiredMessage: string := "Title, author, and ISBN are required"
  const InvalidIsbnMessage: string := "Invalid ISBN format"
  const DuplicateIsbnMessage: string := "Book with this ISBN already exists"
  const BookNotFoundMessage: string := "Book not found"

  /** `\d` of a JavaScript regular expression without the `u` flag. */
  predicate IsDigit(c: char)
  {
    '0' <= c <= '9'
  }

  predicate AllDigits(s: string)
  {
    forall i :: 0 <= i < |s| ==> IsDigit(s[i])
  }

  /** `\d{9}(\d|X)$`: nine digits, then one digit or a capital X, then the end. */
  predicate MatchesBody(s: string)
  {
    |s| == 10 && AllDigits(s[..9]) && (IsDigit(s[9]) || s[9] == 'X')
  }

  /** `/^(97(8|9))?\d{9}(\d|X)$/.test(s)`: the optional prefix is either taken or skipped. */
  function IsbnRegexTest(s: string): (accepted: bool)
    ensures accepted ==> |s| == 10 || |s| == 13
    ensures accepted && |s| == 13 ==> s[..3] == "978" || s[..3] == "979"
    ensures accepted ==> (forall i :: 0 <= i < |s| - 1 ==> IsDigit(s[i])) && (IsDigit(s[|s| - 1]) || s[|s| - 1] == 'X')
  {
    MatchesBody(s) || (|s| >= 3 && s[0] == '9' && s[1] == '7' && (s[2] == '8' || s[2] == '9') && MatchesBody(s[3..]))
  }

  /** The two shapes the pattern accepts, written out position by position. */
  predicate IsIsbnShape(s: string)
  {
    || (|s| == 10 && (forall i :: 0 <= i < 9 ==> IsDigit(s[i])) && (IsDigit(s[9]) || s[9] == 'X'))
    || (|s| == 13 && (s[..3] == "978" || s[..3] == "979")
        && (forall i :: 3 <= i < 12 ==> IsDigit(s[i])) && (IsDigit(s[12]) || s[12] == 'X'))
  }

  lemma IsbnRegexShapes(s: string)
    ensures IsbnRegexTest(s) <==> IsIsbnShape(s)
  {
  }

  /** No check digit is computed: whatever the last character is, as long as it is
      a digit or X, the string is accepted. */
  lemma IsbnLastCharacterFree(s: string, c: char)
    requires IsbnRegexTest(s)
    requires IsDigit(c) || c == 'X'
    ensures IsbnRegexTest(s[|s| - 1 := c])
  {
  }

  /** `Book.findOne({ isbn })` finds a document. */
  predicate IsbnTaken(books: map<Id, Book>, isbn: string)
  {
    exists id :: id in books && books[id].isbn == isbn
  }

  /** The ISBN index is unique. */
  ghost predicate UniqueIsbns(books: map<Id, Book>)
  {
    forall i, j :: i in books && j in books && books[i].isbn == books[j].isbn ==> i == j
  }

  /** The fields of a create or edit request that the core reads; `None` is a
      field left out of the body. */
  datatype BookFields = BookFields(
    title: Option<string>,
    author: Option<string>,
    isbn: Option<string>,
    totalCopies: Option<int>,
    price: Option<real>,
    borrowedFine: Option<real>)

  /** The checks createBook makes, in order, before it writes anything. */
  function CreateRejection(books: map<Id, Book>, req: BookFields): (rejection: Option<Error>)
    ensures rejection.None? <==>
      && TruthyString(req.title) && TruthyString(req.author) && TruthyString(req.isbn)
      && IsIsbnShape(req.isbn.value) && !IsbnTaken(books, req.isbn.value)
    ensures !(TruthyString(req.title) && TruthyString(req.author) && TruthyString(req.isbn)) ==>
      rejection == Some(BadRequest(RequiredMessage))
    ensures TruthyString(req.isbn) && IsbnTaken(books, req.isbn.value) ==> rejection.Some?
  {
    if !(TruthyString(req.title) && TruthyString(req.author) && TruthyString(req.isbn)) then
      Some(BadRequest(RequiredMessage))
    else if !(IsbnRegexShapes(req.isbn.value); IsbnRegexTest(req.isbn.value)) then
      Some(BadRequest(InvalidIsbnMessage))
    else if IsbnTaken(books, req.isbn.value) then
      Some(BadRequest(DuplicateIsbnMessage))
    else
      None
  }

  /** The document createBook saves: the destructuring defaults, and every copy available. */
  function NewBook(req: BookFields): (book: Book)
    requires req.title.Some? && req.author.Some? && req.isbn.Some?
    ensures CheckedOut(book) == 0
    ensures book.totalCopies == OrElse(req.totalCopies, 1)
    ensures book.price == OrElse(req.price, 0.0) && book.borrowedFine == OrElse(req.borrowedFine, 0.0)
    ensures book.borrowFine == None
  {
    var total := OrElse(req.totalCopies, 1);
    Book(req.title.value, req.author.value, req.isbn.value, total, total,
         OrElse(req.price, 0.0), OrElse(req.borrowedFine, 0.0), None)
  }

  /** createBook. `newId` is the ObjectId of the new book. */
  method CreateBook(db: Database, req: BookFields, newId: Id) returns (r: Result<Book>)
    requires newId !in db.books
    modifies db
    ensures db.users == old(db.users) && db.borrows == old(db.borrows) && db.transactions == old(db.transactions)
    ensures CreateRejection(old(db.books), req).Some? ==>
      r == Err(CreateRejection(old(db.books), req).value) && db.books == old(db.books)
    ensures CreateRejection(old(db.books), req).None? ==>
      r == Ok(NewBook(req)) && db.books == old(db.books)[newId := NewBook(req)]
    ensures UniqueIsbns(old(db.books)) ==> UniqueIsbns(db.books)
  {
    var rejection := CreateRejection(db.books, req);
    if rejection.Some? {
      return Err(rejection.value);
    }
    var book := NewBook(req);
    db.books := db.books[newId := book];
    r := Ok(book);
  }

  /** deleteBook: `findByIdAndDelete` with no check for borrows or transactions that
      still refer to the book, so those are left pointing at a missing book. */
  method DeleteBook(db: Database, id: Id) returns (r: Result<()>)
    modifies db
    ensures db.users == old(db.users) && db.borrows == old(db.borrows) && db.transactions == old(db.transactions)
    ensures id !in old(db.books) ==> r == Err(NotFound(BookNotFoundMessage)) && db.books == old(db.books)
    ensures id in old(db.books) ==> r == Ok(()) && db.books == old(db.books) - {id}
    ensures UniqueIsbns(old(db.books)) ==> UniqueIsbns(db.books)
  {
    if id !in db.books {
      return Err(NotFound(BookNotFoundMessage));
    }
    db.books := db.books - {id};
    r := Ok(());
  }

  /** editBook's `available_copies`: when a truthy `total_copies` is sent, the
      new total less the copies checked out; otherwise the old value. */
  function RecomputedAvailable(totalCopies: Option<int>, book: Book): (available: int)
    ensures TruthyInt(totalCopies) ==> totalCopies.value - available == CheckedOut(book)
    ensures !TruthyInt(totalCopies) ==> available == book.availableCopies
    ensures TruthyInt(totalCopies) ==> (available < 0 <==> totalCopies.value < CheckedOut(book))
  {
    if TruthyInt(totalCopies) then totalCopies.value - (book.totalCopies - book.availableCopies)
    else book.availableCopies
  }

  /** `findByIdAndUpdate` with the request's fields: a field that was sent is
      written as sent, a field left out is kept; `available_copies` is always written. */
  function ApplyEdit(book: Book, patch: BookFields): (edited: Book)
    ensures edited.availableCopies == RecomputedAvailable(patch.totalCopies, book)
    ensures edited.totalCopies == OrElse(patch.totalCopies, book.totalCopies)
    ensures TruthyInt(patch.totalCopies) ==> CheckedOut(edited) == CheckedOut(book)
    ensures patch.totalCopies == None ==> CheckedOut(edited) == CheckedOut(book)
    // a total of 0 is falsy for the recomputation but still written
    ensures patch.totalCopies == Some(0) ==> edited.totalCopies == 0 && edited.availableCopies == book.availableCopies
    ensures edited.isbn == OrElse(patch.isbn, book.isbn) && edited.borrowFine == book.borrowFine
    ensures edited.title == OrElse(patch.title, book.title) && edited.author == OrElse(patch.author, book.author)
    ensures edited.price == OrElse(patch.price, book.price)
    ensures edited.borrowedFine == OrElse(patch.borrowedFine, book.borrowedFine)
  {
    Book(OrElse(patch.title, book.title),
         OrElse(patch.author, book.author),
         OrElse(patch.isbn, book.isbn),
         OrElse(patch.totalCopies, book.totalCopies),
         RecomputedAvailable(patch.totalCopies, book),
         OrElse(patch.price, book.price),
         OrElse(patch.borrowedFine, book.borrowedFine),
         book.borrowFine)
  }

  /** The checks editBook makes, in order: the book exists, and a truthy ISBN that
      differs from the current one is not held by another book. The new ISBN's
      format is not checked. */
  function EditRejection(books: map<Id, Book>, id: Id, patch: BookFields): (rejection: Option<Error>)
    ensures rejection.None? <==>
      id in books &&
      !(TruthyString(patch.isbn) && patch.isbn.value != books[id].isbn && IsbnTaken(books, patch.isbn.value))
    ensures id !in books ==> rejection == Some(NotFound(BookNotFoundMessage))
    ensures id in books && patch.isbn == Some(books[id].isbn) ==> rejection == None
  {
    if id !in books then Some(NotFound(BookNotFoundMessage))
    else if TruthyString(patch.isbn) && patch.isbn.value != books[id].isbn && IsbnTaken(books, patch.isbn.value) then
      Some(BadRequest(DuplicateIsbnMessage))
    else None
  }

  /** editBook. */
  method EditBook(db: Database, id: Id, patch: BookFields) returns (r: Result<Book>)
    modifies db
    ensures db.users == old(db.users) && db.borrows == old(db.borrows) && db.transactions == old(db.transactions)
    ensures EditRejection(old(db.books), id, patch).Some? ==>
      r == Err(EditRejection(old(db.books), id, patch).value) && db.books == old(db.books)
    ensures EditRejection(old(db.books), id, patch).None? ==>
      && r == Ok(ApplyEdit(old(db.books[id]), patch))
      && db.books == old(db.books)[id := ApplyEdit(old(db.books[id]), patch)]
    // only an empty ISBN, which skips the duplicate check, can break uniqueness
    ensures UniqueIsbns(old(db.books)) && patch.isbn != Some("") ==> UniqueIsbns(db.books)
  {
    var rejection := EditRejection(db.books, id, patch);
    if rejection.Some? {
      return Err(rejection.value);
    }
    var edited := ApplyEdit(db.books[id], patch);
    db.books := db.books[id := edited];
    r := Ok(edited);
  }
}
