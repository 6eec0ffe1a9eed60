# LMS-server: copy counts and fee arithmetic, in Dafny

This project models the part of the LMS-server library backend (Node.js,
Express, Mongoose) that counts copies and computes money:

- borrowing and returning a book, each handled by an Express handler and by the
  Borrow schema's `pre("save")` hook;
- late fines and early-return proration;
- purchases (`createTransaction`) and their deletion;
- catalog bookkeeping: the ISBN pattern, ISBN uniqueness, and the initial and
  edited copy counters;
- the per-user earnings sum;
- the User schema's borrow limit and defaults.

MongoDB is a `Store.Database` object with one map per collection. Documents are
datatype values. A handler reads a document, changes the copy it holds, and its
`save()` writes its changes back, so the methods reassign the maps.
`borrow.save()` is `BorrowModel.SaveBorrow`. That method runs the pre-save hook
first, and the borrow handlers call it. The copy counter therefore moves twice
per request, as the JavaScript code does:

- a borrow takes two copies;
- a borrow of the last copy leaves the stock at 0, stores no borrow record and
  replies 500 "No copies available to borrow";
- a return gives two copies back.

Modelling conventions:

- Time is integer milliseconds since the epoch, and a day is 86400000 ms. The
  clock ("now") is a parameter of each handler.
- `new Date(...)` is abstract: a request date is either absent or falsy
  (`Absent`), or given and then parsed into `Some(ms)` or into an invalid date
  (`None`).
- Money is `real`. Copy counts are `int`.
- ObjectIds are `nat`. A new document's id is a parameter, and the method
  requires it to be unused in its collection.
- A request field the body leaves out is `None`. A field sent with a falsy value
  is `Some(v)` (a `quantity` of 0 is `Some(0)`, an empty title is `Some("")`).
  The handlers' JavaScript truthiness tests are written out (`TruthyInt`,
  `TruthyString`), so those handlers treat such a value as missing, while
  `editBook` writes it as sent. `TruthyReal` is the pre-save hook's test of the
  book's `borrow_fine`, not of a request field.
- Identifiers and the borrow date are the exceptions: every ObjectId (`nat`) is
  truthy, so a falsy identifier in a request (`borrowed_by: ""`, `userId: 0`) is
  written as `None`, and a falsy `expected_return_date` (`""`, `0`) is `Absent`.
- Error replies are `BadRequest` (400), `NotFound` (404) and `ServerError` (500),
  with the handlers' own messages.

The model follows the code, which differs from what one might expect of a
library backend in these points:

- `borrowBook` never computes a borrow price, so `total_borrow_price` keeps its
  default of 0.
- No handler checks for a duplicate open borrow.
- A return's stock increment has no cap at `total_copies`.
- A purchase never checks or debits the wallet and has no installment path.
- The late fine is `floor` of the millisecond difference divided by a day, not a
  difference of midnights.
- The writes of one request are sequential saves, not one atomic write.
- routes/earningsRoutes.js:6 mounts `getEarnings` as `GET /earnings`, with no
  `:userId` parameter, so `req.params.userId` is undefined on every request that
  reaches the handler. `EarningsController.GetEarnings` models the sum the
  handler would compute for a given user id.

Assumption: the Borrow schema marks `total_price` as required, but `borrowBook`
never sets it. Under Mongoose's default order, validation runs before the user
`pre("save")` hooks, so every `borrowBook` save fails with a 500 after the
handler's own decrement. The model does not run schema validation and assumes the
hook runs: a borrow record written by `BorrowBook` has `totalPrice == None` (see
`BorrowController.NewBorrow`).

## Model

| member | source | states |
|---|---|---|
| `UserModel.PreSave` | models/userModel.js:39-46 | the save is refused, with the 5-book message, exactly when the role is `"user"` and 5 or more books are borrowed; admins and users under the limit pass; the hook has no other effect (it is a function) |
| `UserModel.NewUser` | models/userModel.js:9-33 | defaults: role `"user"`, wallet 1000000000, status `"active"`, empty lists; such a user passes the borrow-limit hook |
| `BorrowModel.CalculateDays` | models/borrowModel.js:32-33 | the result is the ceiling of the day count: (days-1)·day < end-start ≤ days·day; it is ≥ 0 when start ≤ end, and it equals k exactly when end-start is k whole days |
| `BorrowModel.CalculateDaysAntitone` | models/borrowModel.js:32-33 | a later start never gives more days to the same end; this keeps the unused days of an early return within the loan's days |
| `BorrowModel.ProratedPrice` | models/borrowModel.js:74-78 | the prorated price is never negative; for p ≥ 0 and unused ≥ 0 it is at most p; when unused ≤ total days it is p·(total-unused)/total, and when unused ≥ total it is 0 |
| `BorrowModel.SettleReturn` | models/borrowModel.js:58-79 | only the fine and the borrow price change; late with a truthy `borrow_fine`: fine = ceil-days × `borrow_fine`, price kept; late without it: nothing changes; early: fine kept, price within [0, p] and equal to the prorated price whose unused days (ceil) are at most the loan's days (ceil), which is at least 1; a return exactly at the due time changes nothing |
| `BorrowModel.SaveBorrow` | models/borrowModel.js:36-86 | missing book: fails with "Book not found" and nothing is written; new record: takes one copy, or fails with "No copies available to borrow" and writes nothing; saved with a return date: gives one copy back (no cap) and stores the settled record; otherwise the record is stored as is and no book changes |
| `BorrowController.BorrowRejection` | controllers/borrowController.js:11-43 | accepts exactly when all three fields are present, the date parses and is not before now, the user and the book exist and a copy is available; missing fields and a bad date are reported before any lookup |
| `BorrowController.BorrowBook` | controllers/borrowController.js:6-65 | any rejection writes nothing; otherwise the handler's own decrement and the hook's decrement together take two copies and store the new record (status borrowed, no return date, `total_price` unset); with one copy left the stock ends at 0, no record is stored and the reply is a 500; users and transactions are unchanged; non-negative stock stays non-negative |
| `BorrowController.LateDays` | controllers/borrowController.js:93-95 | the floor of the day count: days·day ≤ now-expected < (days+1)·day; it is ≥ 0 when not early |
| `BorrowController.CeilingAndFloorDays` | controllers/borrowController.js:93-95 | the hook's ceiling day count equals the handler's floor day count on whole days and is one more otherwise |
| `BorrowController.ReturnFine` | controllers/borrowController.js:90-97 | the fine is 0 exactly when the book is less than a full day late or `borrowed_fine` is 0; when late it is floor-days × `borrowed_fine`; it is ≥ 0 when `borrowed_fine` ≥ 0 |
| `BorrowController.ReturnFineMonotone` | controllers/borrowController.js:90-97 | with a non-negative `borrowed_fine`, returning later never costs less |
| `BorrowController.ReturnRejection` | controllers/borrowController.js:73-87 | the lookup order is borrow (404), then book (404), then already returned (400); it accepts exactly when the borrow and its book exist and no return date is set |
| `BorrowController.ReturnBook` | controllers/borrowController.js:68-115 | any rejection writes nothing; otherwise the record gets return date now, status returned and the handler's fine, then the hook settles it; the stock rises by two (handler plus hook); without a truthy `borrow_fine` the stored fine is the handler's floor-days fine |
| `TransactionController.PurchaseRejection` | controllers/transactionController.js:11-34 | accepts exactly when user, book and a non-zero quantity are given, both documents exist and the stock covers the quantity; a missing or zero quantity is a 400 |
| `TransactionController.CreateTransaction` | controllers/transactionController.js:6-66 | a rejection writes nothing; otherwise it stores a transaction priced `price × quantity` with status success, lowers the stock by exactly `quantity` (which stays ≥ 0), and appends the id at the end of the user's list, unless the user pre-save hook refuses, which gives a 500 with the user unchanged; no wallet is read or changed |
| `TransactionController.Pull` | controllers/transactionController.js:115-117 | `$pull` removes every occurrence of the id and keeps the multiset of all other ids |
| `TransactionController.PullAbsent` | controllers/transactionController.js:115-117 | pulling an id that is not in the list leaves it unchanged |
| `TransactionController.PullConcat` | controllers/transactionController.js:115-117 | pulling distributes over concatenation, so the kept ids stay in their order |
| `TransactionController.PullUndoesPush` | controllers/transactionController.js:55 | pulling an id that was appended to a list without it gives the original list back |
| `TransactionController.DeleteTransaction` | controllers/transactionController.js:104-124 | a missing transaction is a 404 and nothing changes; otherwise the transaction is removed and its id is pulled from its owner's list (if the owner exists); the books do not change |
| `BookController.IsbnRegexTest` | controllers/bookController.js:31-34 | an accepted string has length 10 or 13; at length 13 it starts with 978 or 979; all characters are digits except that the last may be `X` |
| `BookController.IsbnRegexShapes` | controllers/bookController.js:31 | the pattern accepts exactly the two shapes: 9 digits then a digit or X, or 978/979, 9 digits, then a digit or X |
| `BookController.IsbnLastCharacterFree` | controllers/bookController.js:31-34 | no check digit is verified: replacing the last character of an accepted ISBN by any digit or X keeps it accepted |
| `BookController.CreateRejection` | controllers/bookController.js:24-42 | accepts exactly when title, author and ISBN are truthy, the ISBN has one of the two shapes and no book holds it; missing fields are reported first |
| `BookController.NewBook` | controllers/bookController.js:14-19 | defaults of 1 copy, price 0 and `borrowed_fine` 0; every copy starts available (none checked out) |
| `BookController.CreateBook` | controllers/bookController.js:4-71 | a rejection writes nothing; otherwise the new book is stored under the new id; ISBNs that were unique stay unique |
| `BookController.RecomputedAvailable` | controllers/bookController.js:156-158 | with a truthy new total the checked-out count is preserved, and the result is negative exactly when the new total is below it; otherwise the old available count is kept |
| `BookController.ApplyEdit` | controllers/bookController.js:156-181 | each of title, author, ISBN, total copies, price and `borrowed_fine` is written as sent or kept when left out, and the undeclared `borrow_fine` is kept; the checked-out count is preserved when the total is truthy or absent; a total of 0 is written while the available count stays as it was |
| `BookController.EditRejection` | controllers/bookController.js:140-153 | a missing book is a 404; a truthy ISBN different from the current one is refused if another book holds it; keeping the same ISBN skips the check |
| `BookController.EditBook` | controllers/bookController.js:120-190 | a rejection writes nothing; otherwise the book is replaced by the edited one; ISBN uniqueness is kept unless the empty ISBN is sent, which skips the handler's duplicate check (the schema's unique index is not modelled, see below) |
| `BookController.DeleteBook` | controllers/bookController.js:104-117 | a missing book is a 404 "Book not found" and nothing changes; otherwise exactly that book is removed and borrows, users and transactions are untouched, so references to it are left dangling; unique ISBNs stay unique |
| `EarningsController.BorrowsOf` | controllers/earningsController.js:7 | the query result holds only borrows of the user, and each of the user's borrows exactly as many times as the collection does (multiset equality restricted to the user) |
| `EarningsController.BorrowsOfConcat` | controllers/earningsController.js:7 | the query keeps the collection's order: the result for a concatenation is the concatenation of the results |
| `EarningsController.BorrowsOfSingle` | controllers/earningsController.js:7 | a one-borrow collection gives that borrow when it is the user's and nothing otherwise; with the concatenation lemma this fixes the result's order |
| `EarningsController.GetEarnings` | controllers/earningsController.js:4-22 | the reduce equals the sum of `total_borrow_price` over the borrows whose `borrowed_by` is the user |
| `EarningsController.EarningsWithoutBorrows` | controllers/earningsController.js:9-12 | a user with no borrows earns 0 |
| `EarningsController.EarningsConcat` | controllers/earningsController.js:9-12 | earnings are additive over concatenated borrow lists |
| `EarningsController.EarningsPermutation` | controllers/earningsController.js:9-12 | earnings do not depend on the order of the borrows |
| `EarningsController.EarningsNonNegative` | controllers/earningsController.js:9-12 | earnings are ≥ 0 when every borrow price is ≥ 0 |
| `Scenarios.BorrowThenReturn` | controllers/borrowController.js:52-107 | a successful borrow of a book with at least two copies, followed by its return, leaves every book's stock as it was and ends with the record returned |
| `Scenarios.ReturnTwice` | controllers/borrowController.js:84-87 | after a successful return, a second return is refused with "Book already returned" and the stored record stays the first return's |
| `Scenarios.DeleteThenReturn` | controllers/bookController.js:104-117 | deleting the book of an open borrow succeeds, and the borrow's return is then refused with 404 "Book not found"; the borrows are unchanged and only that book is gone |
| `Scenarios.PurchaseThenDelete` | controllers/transactionController.js:51-117 | creating and then deleting a purchase restores the transactions and the users, but the stock stays lowered by the quantity |

## Left out

- Installment plans, wallet debits, full-versus-installment purchase and
  earnings by time frame or category: the code has no logic for them.
  `installmentModel.js` is only a schema, and `purchaseBook`, which
  `routes/bookRoutes.js` imports, is not defined by `bookController.js`.
- `userController.js`, `categoryController.js`, `authMiddleware.js`,
  `server.js`, `db/connect.js`, `utils/sendEmail.js` and the routes: they do
  password hashing, tokens, e-mail, CRUD pass-through and HTTP wiring.
- Read-only handlers (`getBooks`, `getBook`, `getBorrowRecords`,
  `getAllTransactions`, `getTransactionById`, `getUserTransactions`): they are
  lookups with no arithmetic.
- Schema fields that the core neither reads nor writes (description,
  publisher, category, cover image, location, PDF files, uploader, address,
  password fields, the borrow's `transaction` reference, `transactionDate`)
  are not part of the datatypes.
- Mongoose validation: requests are not type-cast, no schema validation runs
  before the save hooks, and the `totalPrice` versus `total_price` spelling in
  the Transaction schema is not modelled. The transaction stores the price the
  handler computes.
- Mongoose `findByIdAndUpdate` with an `undefined` field: the model keeps the old
  value of a field the edit request leaves out.
- A thrown storage error in the middle of a handler, and concurrency: requests
  run one at a time, and their saves are sequential map updates.
- IEEE floating point: money is exact `real` arithmetic, and the day counts are
  exact integer divisions. The cases where JavaScript would compute `NaN` or
  `Infinity` (an undefined price or fine, division by a zero-day loan) are
  excluded by the types or by the requires clauses below.
- `BorrowModel.ProratedPrice`: requires the loan to span at least one started
  day, because the code divides by that day count.
- `BorrowModel.SaveBorrow`: requires that a returned record is not returned
  before it was borrowed when the early-return branch applies. Under that
  condition the proration's divisor is at least 1.
- `BorrowController.ReturnBook`: requires the clock not to be earlier than the
  borrow's `borrowed_date`, for the same reason.
- `BookController.EditBook`: the schema's `unique: true` index on `isbn`
  (models/bookModel.js:7) is not modelled. An edit that sends the empty ISBN
  skips the handler's duplicate check, and the model stores it even when another
  book already has the empty ISBN, where MongoDB would refuse the update with a
  duplicate-key error (a 500).
- `BorrowController.BorrowBook`: the handler's `new Date()` and the schema's
  `Date.now` default are the same `now`.
