/** earningsController.js: getEarnings sums `total_borrow_price` over the
    borrows of one user. `all` is the borrow collection in its natural order,
    which is the order `Borrow.find` returns. */
module EarningsController {
  import opened Common
  import opened Schemas

  /** `Borrow.find({ borrowed_by: userId })`. */
  function BorrowsOf(all: seq<Borrow>, userId: Id): (found: seq<Borrow>)
    ensures forall b :: b in found ==> b in all && b.borrowedBy == userId
    ensures forall b :: b in all && b.borrowedBy == userId ==> b in found
    // each of the user's borrows appears as often as in the collection
    ensures forall b :: multiset(found)[b] == if b.borrowedBy == userId then multiset(all)[b] else 0
  {
    if all == [] then []
    else
      assert all == [all[0]] + all[1..];
      if all[0].borrowedBy == userId then [all[0]] + BorrowsOf(all[1..], userId)
      else BorrowsOf(all[1..], userId)
  }

  /** The query keeps the collection's order: filtering a concatenation is the
      concatenation of the filtered parts. */
  lemma {:induction false} BorrowsOfConcat(a: seq<Borrow>, b: seq<Borrow>, userId: Id)
    ensures BorrowsOf(a + b, userId) == BorrowsOf(a, userId) + BorrowsOf(b, userId)
  {
    if a == [] {
      assert a + b == b;
    } else {
      assert (a + b)[0] == a[0] && (a + b)[1..] == a[1..] + b;
      BorrowsOfConcat(a[1..], b, userId);
    }
  }

  /** A single borrow's query result is itself when it is the user's, else empty. */
  lemma BorrowsOfSingle(b: Borrow, userId: Id)
    ensures BorrowsOf([b], userId) == if b.borrowedBy == userId then [b] else []
  {
  }

  /** `borrows.reduce((acc, borrow) => acc + borrow.total_borrow_price, 0)`, a left
      fold; `acc` is the running total, which getEarnings starts at 0. */
  function Reduce(acc: real, borrows: seq<Borrow>): real
    decreases |borrows|
  {
    if borrows == [] then acc else Reduce(acc + borrows[0].totalBorrowPrice, borrows[1..])
  }

  /** The reference sum: each borrow contributes its price when it is the user's, else nothing. */
  function Share(b: Borrow, userId: Id): real
  {
    if b.borrowedBy == userId then b.totalBorrowPrice else 0.0
  }

  function SumShares(all: seq<Borrow>, userId: Id): real
  {
    if all == [] then 0.0 else Share(all[0], userId) + SumShares(all[1..], userId)
  }

  lemma {:induction false} ReduceFromAcc(acc: real, borrows: seq<Borrow>, userId: Id)
    requires forall b :: b in borrows ==> b.borrowedBy == userId
    ensures Reduce(acc, borrows) == acc + SumShares(borrows, userId)
    decreases |borrows|
  {
    if borrows != [] {
      ReduceFromAcc(acc + borrows[0].totalBorrowPrice, borrows[1..], userId);
    }
  }

  lemma {:induction false} FilterPreservesSum(all: seq<Borrow>, userId: Id)
    ensures SumShares(BorrowsOf(all, userId), userId) == SumShares(all, userId)
  {
    if all != [] {
      FilterPreservesSum(all[1..], userId);
      if all[0].borrowedBy == userId {
        assert ([all[0]] + BorrowsOf(all[1..], userId))[1..] == BorrowsOf(all[1..], userId);
      }
    }
  }

  /** getEarnings. */
  function GetEarnings(all: seq<Borrow>, userId: Id): (total: real)
    ensures total == SumShares(all, userId)
  {
    var found := BorrowsOf(all, userId);
    ReduceFromAcc(0.0, found, userId);
    FilterPreservesSum(all, userId);
    Reduce(0.0, found)
  }

  /** A user without borrows has earned 0. */
  lemma EarningsWithoutBorrows(all: seq<Borrow>, userId: Id)
    requires forall b :: b in all ==> b.borrowedBy != userId
    ensures GetEarnings(all, userId) == 0.0
  {
  }

  lemma {:induction false} SumSharesConcat(a: seq<Borrow>, b: seq<Borrow>, userId: Id)
    ensures SumShares(a + b, userId) == SumShares(a, userId) + SumShares(b, userId)
  {
    if a == [] {
      assert a + b == b;
    } else {
      assert (a + b)[1..] == a[1..] + b;
      SumSharesConcat(a[1..], b, userId);
    }
  }

  /** Earnings are additive over concatenated borrow lists. */
  lemma EarningsConcat(a: seq<Borrow>, b: seq<Borrow>, userId: Id)
    ensures GetEarnings(a + b, userId) == GetEarnings(a, userId) + GetEarnings(b, userId)
  {
    SumSharesConcat(a, b, userId);
  }

  lemma MultisetTail(a: seq<Borrow>, b: seq<Borrow>, i: nat)
    requires multiset(a) == multiset(b) && a != [] && i < |b| && b[i] == a[0]
    ensures multiset(a[1..]) == multiset(b[..i] + b[i + 1..])
  {
    assert b == b[..i] + [b[i]] + b[i + 1..];
    assert a == [a[0]] + a[1..];
    calc {
      multiset(a[1..]);
      multiset(a) - multiset{a[0]};
      multiset(b) - multiset{a[0]};
      multiset(b[..i] + b[i + 1..]);
    }
  }

  lemma SumSharesRemove(b: seq<Borrow>, i: nat, userId: Id)
    requires i < |b|
    ensures SumShares(b, userId) == Share(b[i], userId) + SumShares(b[..i] + b[i + 1..], userId)
  {
    assert b == b[..i] + ([b[i]] + b[i + 1..]);
    SumSharesConcat(b[..i], [b[i]] + b[i + 1..], userId);
    SumSharesConcat([b[i]], b[i + 1..], userId);
    SumSharesConcat(b[..i], b[i + 1..], userId);
  }

  lemma {:induction false} SumSharesPermutation(a: seq<Borrow>, b: seq<Borrow>, userId: Id)
    requires multiset(a) == multiset(b)
    ensures SumShares(a, userId) == SumShares(b, userId)
    decreases |a|
  {
    if a == [] {
      assert |b| == |multiset(b)| == 0;
    } else {
      assert a[0] in multiset(b);
      var i :| 0 <= i < |b| && b[i] == a[0];
      MultisetTail(a, b, i);
      SumSharesPermutation(a[1..], b[..i] + b[i + 1..], userId);
      SumSharesRemove(b, i, userId);
    }
  }

  /** Earnings do not depend on the order of the collection. */
  lemma EarningsPermutation(a: seq<Borrow>, b: seq<Borrow>, userId: Id)
    requires multiset(a) == multiset(b)
    ensures GetEarnings(a, userId) == GetEarnings(b, userId)
  {
    SumSharesPermutation(a, b, userId);
  }

  /** No negative prices, no negative earnings. */
  lemma {:induction false} EarningsNonNegative(all: seq<Borrow>, userId: Id)
    requires forall b :: b in all ==> b.totalBorrowPrice >= 0.0
    ensures GetEarnings(all, userId) >= 0.0
  {
    if all != [] {
      EarningsNonNegative(all[1..], userId);
    }
  }
}
