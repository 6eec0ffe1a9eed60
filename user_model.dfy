/** userModel.js: the defaults of a new user and the pre-save hook that caps
    how many books an ordinary user may hold. */
module UserModel {
  import opened Common
  import opened Schemas

  const BorrowLimit: nat := 5
  const BorrowLimitMessage: string := "You cannot borrow more than 5 books at a time"
  const DefaultWalletBalance: real := 1000000000.0

  /** The user pre-save hook: `None` lets the save go on, `Some(message)` aborts it.
      It only looks at the role and the number of borrowed books. */
  function PreSave(u: User): (verdict: Option<string>)
    ensures verdict.Some? <==> u.role == UserRole && |u.borrowedBooks| >= BorrowLimit
    ensures verdict.Some? ==> verdict.value == BorrowLimitMessage
  {
    if u.role == UserRole && |u.borrowedBooks| >= BorrowLimit then Some(BorrowLimitMessage) else None
  }

  /** A user document as the schema's defaults fill it in. */
  function NewUser(): (u: User)
    ensures u.role == UserRole && u.status == Active
    ensures u.walletBalance == DefaultWalletBalance
    ensures u.transactions == [] && u.borrowedBooks == [] && u.purchasedBooks == []
    ensures PreSave(u) == None
  {
    User(UserRole, DefaultWalletBalance, [], [], [], Active)
  }
}
