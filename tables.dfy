/** The three tables of the ledger (users, bills, bill_shares) as values, and
    the queries and deletions the handlers run against them. */
module Tables {
  import opened Cents
  import opened Distributor

  /** The protected administrator identity seeded at start-up. */
  const ADMIN: string := "admin"
  /** A bill is due 24 hours after it is created (timestamps are in seconds). */
  const DAY: int := 86400

  datatype UserRow = UserRow(password: string, isAdmin: bool)

  datatype Bill = Bill(id: int, creator: string, amount: int, date: string, description: string,
                       discount: bool, createdAt: Timestamp, dueAt: Timestamp)

  datatype ShareRow = ShareRow(billId: int, username: string, amount: int, paid: bool, paidAt: Option<Timestamp>)

  /** A share as the listing returns it: (username, share_amount, is_paid, paid_at). */
  datatype ShareView = ShareView(username: string, amount: int, paid: bool, paidAt: Option<Timestamp>)

  /** A bill expanded with its shares. */
  datatype BillView = BillView(bill: Bill, shares: seq<ShareView>)

  datatype Error = InvalidInput(message: string) | Unauthorized | Conflict | NotFound | AlreadyPaid

  datatype Result<T> = Ok(value: T) | Err(error: Error)

  // ---------------------------------------------------------------------
  // Queries

  predicate HasBill(bills: seq<Bill>, id: int) {
    exists i :: 0 <= i < |bills| && bills[i].id == id
  }

  /** Some share row of bill `id` belongs to `u`. */
  predicate HasShare(shares: seq<ShareRow>, id: int, u: string) {
    exists k :: 0 <= k < |shares| && shares[k].billId == id && shares[k].username == u
  }

  /** Some share row of bill `id` belongs to `u` and is paid. */
  predicate HasPaidShare(shares: seq<ShareRow>, id: int, u: string) {
    exists k :: 0 <= k < |shares| && shares[k].billId == id && shares[k].username == u && shares[k].paid
  }

  /** At most one share row per (bill_id, username). */
  predicate UniqueKeys(shares: seq<ShareRow>) {
    forall i, j :: 0 <= i < j < |shares| ==>
      shares[i].billId != shares[j].billId || shares[i].username != shares[j].username
  }

  /** `SELECT ... FROM bill_shares WHERE bill_id=? AND username=?`, first row. */
  function FindShare(shares: seq<ShareRow>, id: int, u: string): (r: Option<nat>)
    ensures r.Some? ==> r.value < |shares| && shares[r.value].billId == id && shares[r.value].username == u
    ensures r.Some? ==> forall j :: 0 <= j < r.value ==> shares[j].billId != id || shares[j].username != u
    ensures r.None? <==> !HasShare(shares, id, u)
  {
    if shares == [] then None
    else if shares[0].billId == id && shares[0].username == u then Some(0)
    else
      match FindShare(shares[1..], id, u)
      case None =>
        assert !HasShare(shares, id, u) by {
          forall k | 0 < k < |shares| ensures shares[k].billId != id || shares[k].username != u {
            assert shares[k] == shares[1..][k - 1];
          }
        }
        None
      case Some(k) =>
        assert shares[k + 1] == shares[1..][k];
        Some(k + 1)
  }

  /** Sum of the amounts of the share rows of bill `id`. */
  function BillTotal(shares: seq<ShareRow>, id: int): int {
    if shares == [] then 0
    else
      var last := shares[|shares| - 1];
      BillTotal(shares[..|shares| - 1], id) + (if last.billId == id then last.amount else 0)
  }

  /** The share rows inserted for a new bill, one per distributed tuple. */
  function RowsFor(id: int, allots: seq<Allotment>): (rows: seq<ShareRow>)
    ensures |rows| == |allots|
    ensures forall k :: 0 <= k < |rows| ==> rows[k].billId == id
    ensures forall k :: 0 <= k < |rows| ==>
              && rows[k].username == allots[k].username && rows[k].amount == allots[k].amount
              && rows[k].paid == allots[k].paid && rows[k].paidAt == allots[k].paidAt
    ensures BillTotal(rows, id) == Sum(AmountsOf(allots))
  {
    var rows := seq(|allots|, k requires 0 <= k < |allots| =>
      ShareRow(id, allots[k].username, allots[k].amount, allots[k].paid, allots[k].paidAt));
    BillTotalOfRows(rows, id, AmountsOf(allots));
    rows
  }

  /** `SELECT username, share_amount, is_paid, paid_at FROM bill_shares WHERE bill_id=?`. */
  function SharesOf(shares: seq<ShareRow>, id: int): (r: seq<ShareView>)
    ensures forall v :: v in r <==> exists k :: 0 <= k < |shares| && shares[k].billId == id
                                      && v == ShareView(shares[k].username, shares[k].amount, shares[k].paid, shares[k].paidAt)
    ensures UniqueKeys(shares) ==> Distinct(r)
  {
    if shares == [] then []
    else
      var p, last := shares[..|shares| - 1], shares[|shares| - 1];
      var front := SharesOf(p, id);
      var r := front + (if last.billId == id then [ShareView(last.username, last.amount, last.paid, last.paidAt)] else []);
      assert forall k :: 0 <= k < |p| ==> p[k] == shares[k];
      assert UniqueKeys(shares) ==> Distinct(r) by {
        if UniqueKeys(shares) && last.billId == id {
          var v := ShareView(last.username, last.amount, last.paid, last.paidAt);
          forall k | 0 <= k < |p| && p[k].billId == id
            ensures v != ShareView(p[k].username, p[k].amount, p[k].paid, p[k].paidAt)
          {
            assert p[k].username != last.username;
          }
          DistinctSnoc(front, v);
        }
      }
      r
  }

  /** Appending an element not yet present keeps a sequence distinct. */
  lemma DistinctSnoc<T>(s: seq<T>, x: T)
    requires Distinct(s) && x !in s
    ensures Distinct(s + [x])
  {
  }

  /** `DELETE FROM bill_shares WHERE bill_id=?`. */
  function WithoutShares(shares: seq<ShareRow>, id: int): (r: seq<ShareRow>)
    ensures forall s :: s in r <==> s in shares && s.billId != id
  {
    if shares == [] then []
    else
      var p, last := shares[..|shares| - 1], shares[|shares| - 1];
      assert shares == p + [last];
      WithoutShares(p, id) + (if last.billId != id then [last] else [])
  }

  /** `DELETE FROM bills WHERE id=?`. */
  function WithoutBill(bills: seq<Bill>, id: int): (r: seq<Bill>)
    ensures forall b :: b in r <==> b in bills && b.id != id
  {
    if bills == [] then []
    else
      var p, last := bills[..|bills| - 1], bills[|bills| - 1];
      assert bills == p + [last];
      WithoutBill(p, id) + (if last.id != id then [last] else [])
  }

  /** `SELECT * FROM bills WHERE id IN (SELECT bill_id FROM bill_shares WHERE username=?)`. */
  function BillsSharedWith(bills: seq<Bill>, shares: seq<ShareRow>, u: string): (r: seq<Bill>)
    ensures forall b :: b in r <==> b in bills && HasShare(shares, b.id, u)
    ensures multiset(r) <= multiset(bills)
  {
    if bills == [] then []
    else
      var p, last := bills[..|bills| - 1], bills[|bills| - 1];
      assert bills == p + [last];
      BillsSharedWith(p, shares, u) + (if HasShare(shares, last.id, u) then [last] else [])
  }

  // ---------------------------------------------------------------------
  // Bill totals under the three writes

  lemma {:induction false} BillTotalAppend(a: seq<ShareRow>, b: seq<ShareRow>, id: int)
    ensures BillTotal(a + b, id) == BillTotal(a, id) + BillTotal(b, id)
    decreases |b|
  {
    if b == [] {
      assert a + b == a;
    } else {
      var p := b[..|b| - 1];
      assert (a + b)[..|a + b| - 1] == a + p;
      BillTotalAppend(a, p, id);
    }
  }

  lemma {:induction false} BillTotalAbsent(shares: seq<ShareRow>, id: int)
    requires forall k :: 0 <= k < |shares| ==> shares[k].billId != id
    ensures BillTotal(shares, id) == 0
  {
    if shares != [] {
      BillTotalAbsent(shares[..|shares| - 1], id);
    }
  }

  /** Rows of one bill carrying the given amounts, in order, total their sum. */
  lemma {:induction false} BillTotalOfRows(rows: seq<ShareRow>, id: int, amounts: seq<int>)
    requires |rows| == |amounts|
    requires forall k :: 0 <= k < |rows| ==> rows[k].billId == id && rows[k].amount == amounts[k]
    ensures BillTotal(rows, id) == Sum(amounts)
  {
    if rows != [] {
      BillTotalOfRows(rows[..|rows| - 1], id, amounts[..|amounts| - 1]);
    }
  }

  /** Marking one share paid leaves every bill's total as it was. */
  lemma {:induction false} BillTotalPaid(shares: seq<ShareRow>, k: nat, now: Timestamp, id: int)
    requires k < |shares|
    ensures BillTotal(shares[k := shares[k].(paid := true, paidAt := Some(now))], id) == BillTotal(shares, id)
  {
    var s' := shares[k := shares[k].(paid := true, paidAt := Some(now))];
    var n := |shares|;
    if k == n - 1 {
      assert s'[..n - 1] == shares[..n - 1];
    } else {
      assert s'[..n - 1] == shares[..n - 1][k := shares[k].(paid := true, paidAt := Some(now))];
      BillTotalPaid(shares[..n - 1], k, now, id);
    }
  }

  /** Deleting one bill's shares leaves every other bill's total as it was. */
  lemma {:induction false} BillTotalWithout(shares: seq<ShareRow>, gone: int, id: int)
    requires gone != id
    ensures BillTotal(WithoutShares(shares, gone), id) == BillTotal(shares, id)
  {
    if shares != [] {
      var p, last := shares[..|shares| - 1], shares[|shares| - 1];
      BillTotalWithout(p, gone, id);
      if last.billId != gone {
        assert (WithoutShares(p, gone) + [last])[..|WithoutShares(p, gone)|] == WithoutShares(p, gone);
      } else {
        assert WithoutShares(p, gone) + [] == WithoutShares(p, gone);
      }
    }
  }

  /** Deleting one bill's shares keeps (bill_id, username) unique. */
  lemma {:induction false} UniqueWithout(shares: seq<ShareRow>, gone: int)
    requires UniqueKeys(shares)
    ensures UniqueKeys(WithoutShares(shares, gone))
  {
    if shares != [] {
      var p, last := shares[..|shares| - 1], shares[|shares| - 1];
      UniqueWithout(p, gone);
      var w := WithoutShares(p, gone);
      if last.billId != gone {
        forall y | y in w ensures y.billId != last.billId || y.username != last.username {
          var i :| 0 <= i < |p| && p[i] == y;
        }
        var r := w + [last];
        forall i, j | 0 <= i < j < |r| ensures r[i].billId != r[j].billId || r[i].username != r[j].username {
          if j == |w| {
            assert r[i] in w;
          } else {
            assert r[i] == w[i] && r[j] == w[j];
          }
        }
      } else {
        assert w + [] == w;
      }
    }
  }

  predicate Ascending(bills: seq<Bill>) {
    forall i, j :: 0 <= i < j < |bills| ==> bills[i].id < bills[j].id
  }

  /** Deleting bill rows keeps the ids in ascending order. */
  lemma {:induction false} AscendingWithout(bills: seq<Bill>, gone: int)
    requires Ascending(bills)
    ensures Ascending(WithoutBill(bills, gone))
  {
    if bills != [] {
      var p, last := bills[..|bills| - 1], bills[|bills| - 1];
      AscendingWithout(p, gone);
      var w := WithoutBill(p, gone);
      if last.id != gone {
        var r := w + [last];
        forall i, j | 0 <= i < j < |r| ensures r[i].id < r[j].id {
          if j == |w| {
            assert r[i] == w[i] && w[i] in w;
            var m :| 0 <= m < |p| && p[m] == r[i];
            assert bills[m] == p[m];
          } else {
            assert r[i] == w[i] && r[j] == w[j];
          }
        }
        assert WithoutBill(bills, gone) == r;
      } else {
        assert WithoutBill(bills, gone) == w + [] == w;
      }
    }
  }

  // ---------------------------------------------------------------------
  // The ledger invariant and the writes that keep it

  /** The bill created at `now` with identifier `id`. */
  function NewBill(id: int, creator: string, amount: int, date: string, description: string,
                   discount: bool, now: Timestamp): (b: Bill)
    ensures b.id == id && b.creator == creator && b.amount == amount && b.discount == discount
    ensures b.date == date && b.description == description
    ensures b.createdAt == now && b.dueAt == b.createdAt + DAY
  {
    Bill(id, creator, amount, date, description, discount, now, now + DAY)
  }

  /** With one row per key, the row FindShare returns is the only row of
      that user for that bill, so it alone decides whether the share is paid. */
  lemma FoundIsOnly(shares: seq<ShareRow>, id: int, u: string)
    requires UniqueKeys(shares)
    requires FindShare(shares, id, u).Some?
    ensures forall j :: 0 <= j < |shares| && shares[j].billId == id && shares[j].username == u ==>
              j == FindShare(shares, id, u).value
    ensures HasPaidShare(shares, id, u) <==> shares[FindShare(shares, id, u).value].paid
  {
  }

  /** Paying the row found for (id, u) changes that user's row on that bill
      and no other row, since keys are unique. */
  lemma PaidOnlyThatRow(shares: seq<ShareRow>, id: int, u: string, k: nat, now: Timestamp)
    requires UniqueKeys(shares)
    requires FindShare(shares, id, u) == Some(k)
    ensures var r := PaidAt(shares, k, now);
            forall j :: 0 <= j < |r| ==>
              r[j] == if shares[j].billId == id && shares[j].username == u
                      then shares[j].(paid := true, paidAt := Some(now))
                      else shares[j]
  {
    FoundIsOnly(shares, id, u);
  }

  /** The share row `k` after its one-shot payment at `now`. */
  function PaidAt(shares: seq<ShareRow>, k: nat, now: Timestamp): (r: seq<ShareRow>)
    requires k < |shares|
    ensures |r| == |shares|
    ensures r[k].paid && r[k].paidAt == Some(now)
    ensures r[k].billId == shares[k].billId && r[k].username == shares[k].username && r[k].amount == shares[k].amount
    ensures forall j :: 0 <= j < |r| && j != k ==> r[j] == shares[j]
    ensures forall id :: BillTotal(r, id) == BillTotal(shares, id)
  {
    var r := shares[k := shares[k].(paid := true, paidAt := Some(now))];
    assert forall id :: BillTotal(r, id) == BillTotal(shares, id) by {
      forall id ensures BillTotal(r, id) == BillTotal(shares, id) {
        BillTotalPaid(shares, k, now, id);
      }
    }
    r
  }

  /** What the tables always satisfy: the undeletable administrator exists
      and is the only administrator;
      bill ids are positive, ascending and below the next id to hand out;
      every share row belongs to an existing bill; one share per (bill,
      user); a bill's shares sum to its amount and include the creator's own
      share, already paid; a share is paid exactly when it has a payment time. */
  predicate Consistent(users: map<string, UserRow>, bills: seq<Bill>, shares: seq<ShareRow>, next: int) {
    && ADMIN in users && users[ADMIN].isAdmin
    && (forall u :: u in users && users[u].isAdmin ==> u == ADMIN)
    && 1 <= next
    && Ascending(bills)
    && (forall b :: b in bills ==> 1 <= b.id < next)
    && (forall s :: s in shares ==> HasBill(bills, s.billId))
    && UniqueKeys(shares)
    && (forall b :: b in bills ==> BillTotal(shares, b.id) == b.amount)
    && (forall b :: b in bills ==> HasPaidShare(shares, b.id, b.creator))
    && (forall s :: s in shares ==> (s.paid <==> s.paidAt.Some?))
  }

  /** Appending rows of a fresh bill id whose usernames are distinct keeps
      (bill_id, username) unique. */
  lemma UniqueAppendFresh(shares: seq<ShareRow>, rows: seq<ShareRow>, id: int)
    requires UniqueKeys(shares)
    requires forall s :: s in shares ==> s.billId != id
    requires forall s :: s in rows ==> s.billId == id
    requires forall i, j :: 0 <= i < j < |rows| ==> rows[i].username != rows[j].username
    ensures UniqueKeys(shares + rows)
  {
    var r := shares + rows;
    forall i, j | 0 <= i < j < |r| ensures r[i].billId != r[j].billId || r[i].username != r[j].username {
      if j < |shares| {
        assert r[i] == shares[i] && r[j] == shares[j];
      } else if i >= |shares| {
        assert r[i] == rows[i - |shares|] && r[j] == rows[j - |shares|];
      } else {
        assert r[i] == shares[i] && r[j] == rows[j - |shares|];
      }
    }
  }

  /** Every existing share row's bill id is below the next id handed out. */
  lemma SharesBelowNext(bills: seq<Bill>, shares: seq<ShareRow>, next: int)
    requires forall b :: b in bills ==> b.id < next
    requires forall s :: s in shares ==> HasBill(bills, s.billId)
    ensures forall s :: s in shares ==> s.billId != next
  {
    forall s | s in shares ensures s.billId != next {
      var i :| 0 <= i < |bills| && bills[i].id == s.billId;
      assert bills[i] in bills;
    }
  }

  /** Appending rows of other bills leaves a bill's total as it was. */
  lemma AppendOtherBill(shares: seq<ShareRow>, rows: seq<ShareRow>, id: int)
    requires forall s :: s in rows ==> s.billId != id
    ensures BillTotal(shares + rows, id) == BillTotal(shares, id)
  {
    BillTotalAppend(shares, rows, id);
    BillTotalAbsent(rows, id);
  }

  /** Rows made from tuples with distinct users, a paid tuple of the creator
      and payment times exactly on the paid ones have the same properties,
      and total the tuples' amounts. */
  lemma RowsForFacts(id: int, allots: seq<Allotment>, creator: string)
    requires Distinct(Usernames(allots))
    requires exists k :: 0 <= k < |allots| && allots[k].paid && allots[k].username == creator
    requires forall k :: 0 <= k < |allots| ==> (allots[k].paid <==> allots[k].paidAt.Some?)
    ensures var rows := RowsFor(id, allots);
            && (forall i, j :: 0 <= i < j < |rows| ==> rows[i].username != rows[j].username)
            && BillTotal(rows, id) == Sum(AmountsOf(allots))
            && HasPaidShare(rows, id, creator)
            && (forall s :: s in rows ==> (s.paid <==> s.paidAt.Some?))
  {
    var rows := RowsFor(id, allots);
    assert forall k :: 0 <= k < |rows| ==> rows[k].username == Usernames(allots)[k];
    var k :| 0 <= k < |allots| && allots[k].paid && allots[k].username == creator;
    assert rows[k].paid && rows[k].username == creator;
  }

  /** The share rows of a new bill: distinct users, summing to the amount,
      the creator's paid, paid exactly when stamped. */
  lemma NewRows(id: int, amount: int, names: seq<string>, creator: string, discount: bool, now: Timestamp)
    ensures var rows := RowsFor(id, Distribute(amount, names, creator, discount, now));
            && (forall i, j :: 0 <= i < j < |rows| ==> rows[i].username != rows[j].username)
            && BillTotal(rows, id) == amount
            && HasPaidShare(rows, id, creator)
            && (forall s :: s in rows ==> (s.paid <==> s.paidAt.Some?))
  {
    var allots := Distribute(amount, names, creator, discount, now);
    CreatorOnce(names, creator, amount, discount, now);
    DistributeMarks(amount, names, creator, discount, now);
    RowsForFacts(id, allots, creator);
  }

  /** Appending a bill with the next id keeps the bills ascending and every
      share attached to a bill. */
  lemma AppendBillShape(bills: seq<Bill>, shares: seq<ShareRow>, next: int, nb: Bill, rows: seq<ShareRow>)
    requires Ascending(bills) && (forall b :: b in bills ==> 1 <= b.id < next)
    requires forall s :: s in shares ==> HasBill(bills, s.billId)
    requires nb.id == next && 1 <= next
    requires forall s :: s in rows ==> s.billId == next
    ensures Ascending(bills + [nb])
    ensures forall b :: b in bills + [nb] ==> 1 <= b.id < next + 1
    ensures forall s :: s in shares + rows ==> HasBill(bills + [nb], s.billId)
  {
    var bills' := bills + [nb];
    forall i, j | 0 <= i < j < |bills'| ensures bills'[i].id < bills'[j].id {
      assert bills'[i] == bills[i] && bills[i] in bills;
      if j < |bills| {
        assert bills'[j] == bills[j];
      }
    }
    forall s | s in shares + rows ensures HasBill(bills', s.billId) {
      if s in shares {
        var i :| 0 <= i < |bills| && bills[i].id == s.billId;
        assert bills'[i] == bills[i];
      } else {
        assert bills'[|bills|] == nb;
      }
    }
  }

  /** Appending share rows for a new bill keeps every bill's total and the
      creator's paid share, and the new bill gets the rows' total. */
  lemma AppendBillTotals(bills: seq<Bill>, shares: seq<ShareRow>, next: int, nb: Bill, rows: seq<ShareRow>)
    requires forall b :: b in bills ==> b.id < next
    requires forall s :: s in shares ==> HasBill(bills, s.billId)
    requires forall b :: b in bills ==> BillTotal(shares, b.id) == b.amount
    requires forall b :: b in bills ==> HasPaidShare(shares, b.id, b.creator)
    requires nb.id == next
    requires forall s :: s in rows ==> s.billId == next
    requires BillTotal(rows, next) == nb.amount && HasPaidShare(rows, next, nb.creator)
    ensures forall b :: b in bills + [nb] ==> BillTotal(shares + rows, b.id) == b.amount
    ensures forall b :: b in bills + [nb] ==> HasPaidShare(shares + rows, b.id, b.creator)
  {
    var shares' := shares + rows;
    SharesBelowNext(bills, shares, next);
    forall b | b in bills + [nb] ensures BillTotal(shares', b.id) == b.amount {
      if b == nb {
        BillTotalAppend(shares, rows, nb.id);
        BillTotalAbsent(shares, nb.id);
      } else {
        AppendOtherBill(shares, rows, b.id);
      }
    }
    forall b | b in bills + [nb] ensures HasPaidShare(shares', b.id, b.creator) {
      if b == nb {
        var k :| 0 <= k < |rows| && rows[k].billId == nb.id && rows[k].username == nb.creator && rows[k].paid;
        assert shares'[|shares| + k] == rows[k];
      } else {
        var k :| 0 <= k < |shares| && shares[k].billId == b.id && shares[k].username == b.creator && shares[k].paid;
        assert shares'[k] == shares[k];
      }
    }
  }

  /** Appending a bill with the next id, and share rows for it with distinct
      users that sum to its amount and include the creator's paid share,
      keeps the tables consistent. */
  lemma AppendBillKeepsConsistent(users: map<string, UserRow>, bills: seq<Bill>, shares: seq<ShareRow>, next: int,
                                  nb: Bill, rows: seq<ShareRow>)
    requires Consistent(users, bills, shares, next)
    requires nb.id == next
    requires forall s :: s in rows ==> s.billId == next
    requires forall i, j :: 0 <= i < j < |rows| ==> rows[i].username != rows[j].username
    requires BillTotal(rows, next) == nb.amount && HasPaidShare(rows, next, nb.creator)
    requires forall s :: s in rows ==> (s.paid <==> s.paidAt.Some?)
    ensures Consistent(users, bills + [nb], shares + rows, next + 1)
  {
    AppendBillShape(bills, shares, next, nb, rows);
    SharesBelowNext(bills, shares, next);
    UniqueAppendFresh(shares, rows, next);
    AppendBillTotals(bills, shares, next, nb, rows);
  }

  /** Creating a bill keeps the tables consistent. */
  lemma CreateKeepsConsistent(users: map<string, UserRow>, bills: seq<Bill>, shares: seq<ShareRow>, next: int,
                              creator: string, amount: int, date: string, description: string,
                              names: seq<string>, discount: bool, paidNow: Timestamp, now: Timestamp)
    requires Consistent(users, bills, shares, next)
    ensures Consistent(users, bills + [NewBill(next, creator, amount, date, description, discount, now)],
                       shares + RowsFor(next, Distribute(amount, names, creator, discount, paidNow)), next + 1)
  {
    var nb := NewBill(next, creator, amount, date, description, discount, now);
    NewRows(next, amount, names, creator, discount, paidNow);
    AppendBillKeepsConsistent(users, bills, shares, next, nb, RowsFor(next, Distribute(amount, names, creator, discount, paidNow)));
  }

  /** Paying a share changes no key, so every row still has its bill, the
      keys stay unique, and the paid row carries its payment time. */
  lemma PaidRowsShape(bills: seq<Bill>, shares: seq<ShareRow>, k: nat, now: Timestamp)
    requires k < |shares|
    requires forall s :: s in shares ==> HasBill(bills, s.billId)
    requires UniqueKeys(shares)
    requires forall s :: s in shares ==> (s.paid <==> s.paidAt.Some?)
    ensures forall s :: s in PaidAt(shares, k, now) ==> HasBill(bills, s.billId)
    ensures UniqueKeys(PaidAt(shares, k, now))
    ensures forall s :: s in PaidAt(shares, k, now) ==> (s.paid <==> s.paidAt.Some?)
  {
    var shares' := PaidAt(shares, k, now);
    assert forall j :: 0 <= j < |shares| ==> shares'[j].billId == shares[j].billId && shares'[j].username == shares[j].username;
    forall s | s in shares' ensures HasBill(bills, s.billId) && (s.paid <==> s.paidAt.Some?) {
      var j :| 0 <= j < |shares'| && shares'[j] == s;
      assert shares[j] in shares;
    }
  }

  /** Paying a share changes no bill's total and unpays no share. */
  lemma PaidTotals(bills: seq<Bill>, shares: seq<ShareRow>, k: nat, now: Timestamp)
    requires k < |shares|
    requires forall b :: b in bills ==> BillTotal(shares, b.id) == b.amount
    requires forall b :: b in bills ==> HasPaidShare(shares, b.id, b.creator)
    ensures forall b :: b in bills ==> BillTotal(PaidAt(shares, k, now), b.id) == b.amount
    ensures forall b :: b in bills ==> HasPaidShare(PaidAt(shares, k, now), b.id, b.creator)
  {
    var shares' := PaidAt(shares, k, now);
    forall b | b in bills ensures BillTotal(shares', b.id) == b.amount {
      BillTotalPaid(shares, k, now, b.id);
    }
    forall b | b in bills ensures HasPaidShare(shares', b.id, b.creator) {
      var j :| 0 <= j < |shares| && shares[j].billId == b.id && shares[j].username == b.creator && shares[j].paid;
      assert shares'[j].paid && shares'[j].billId == b.id && shares'[j].username == b.creator;
    }
  }

  /** Paying one share keeps the tables consistent. */
  lemma PayKeepsConsistent(users: map<string, UserRow>, bills: seq<Bill>, shares: seq<ShareRow>, next: int,
                           k: nat, now: Timestamp)
    requires Consistent(users, bills, shares, next)
    requires k < |shares|
    ensures Consistent(users, bills, PaidAt(shares, k, now), next)
  {
    PaidRowsShape(bills, shares, k, now);
    PaidTotals(bills, shares, k, now);
  }

  lemma OwnersWithout(bills: seq<Bill>, shares: seq<ShareRow>, id: int)
    requires forall s :: s in shares ==> HasBill(bills, s.billId)
    ensures forall s :: s in WithoutShares(shares, id) ==> HasBill(WithoutBill(bills, id), s.billId)
  {
    var bills' := WithoutBill(bills, id);
    forall s | s in WithoutShares(shares, id) ensures HasBill(bills', s.billId) {
      var i :| 0 <= i < |bills| && bills[i].id == s.billId;
      assert bills[i] in bills;
      var j :| 0 <= j < |bills'| && bills'[j] == bills[i];
    }
  }

  lemma PaidSharesWithout(bills: seq<Bill>, shares: seq<ShareRow>, id: int)
    requires forall b :: b in bills ==> HasPaidShare(shares, b.id, b.creator)
    ensures forall b :: b in WithoutBill(bills, id) ==> HasPaidShare(WithoutShares(shares, id), b.id, b.creator)
  {
    var shares' := WithoutShares(shares, id);
    forall b | b in WithoutBill(bills, id) ensures HasPaidShare(shares', b.id, b.creator) {
      var k :| 0 <= k < |shares| && shares[k].billId == b.id && shares[k].username == b.creator && shares[k].paid;
      assert shares[k] in shares;
      var j :| 0 <= j < |shares'| && shares'[j] == shares[k];
    }
  }

  /** Deleting a bill together with its shares keeps the tables consistent. */
  lemma DeleteBillKeepsConsistent(users: map<string, UserRow>, bills: seq<Bill>, shares: seq<ShareRow>, next: int,
                                  id: int)
    requires Consistent(users, bills, shares, next)
    ensures Consistent(users, WithoutBill(bills, id), WithoutShares(shares, id), next)
  {
    AscendingWithout(bills, id);
    UniqueWithout(shares, id);
    OwnersWithout(bills, shares, id);
    PaidSharesWithout(bills, shares, id);
    forall b | b in WithoutBill(bills, id) ensures BillTotal(WithoutShares(shares, id), b.id) == b.amount {
      BillTotalWithout(shares, id, b.id);
    }
  }
}
