/** The bill/share ledger: the rules the request handlers enforce over the
    users, bills and bill_shares tables, as a store whose methods change those
    tables in place. The clock is the `now` parameter. */
module Ledger {
  import opened Text
  import opened Distributor
  import opened Tables

  // ---------------------------------------------------------------------
  // `ORDER BY created_at DESC`

  predicate SortedDesc(bs: seq<Bill>) {
    forall i, j :: 0 <= i < j < |bs| ==> bs[i].createdAt >= bs[j].createdAt
  }

  /** A bill no older than the head of a newest-first list can go in front. */
  lemma SortedCons(x: Bill, t: seq<Bill>)
    requires SortedDesc(t)
    requires t == [] || x.createdAt >= t[0].createdAt
    ensures SortedDesc([x] + t)
  {
    var r := [x] + t;
    forall i, j | 0 <= i < j < |r| ensures r[i].createdAt >= r[j].createdAt {
      if i == 0 {
        assert r[j] == t[j - 1];
        assert t[0].createdAt >= t[j - 1].createdAt;
      } else {
        assert r[i] == t[i - 1] && r[j] == t[j - 1];
      }
    }
  }

  /** Puts `b` before the first bill that is not newer than it. */
  function Insert(b: Bill, s: seq<Bill>): (r: seq<Bill>)
    requires SortedDesc(s)
    ensures |r| == |s| + 1 && (r[0] == b || (s != [] && r[0] == s[0]))
    ensures SortedDesc(r)
    ensures multiset(r) == multiset(s) + multiset{b}
  {
    if s == [] || b.createdAt >= s[0].createdAt then
      SortedCons(b, s);
      [b] + s
    else
      var rest := Insert(b, s[1..]);
      assert s == [s[0]] + s[1..];
      assert SortedDesc(s[1..]) by {
        forall i, j | 0 <= i < j < |s| - 1 ensures s[1..][i].createdAt >= s[1..][j].createdAt {
          assert s[1..][i] == s[i + 1] && s[1..][j] == s[j + 1];
        }
      }
      assert s[1..] != [] ==> s[1..][0] == s[1];
      SortedCons(s[0], rest);
      [s[0]] + rest
  }

  /** The bills newest first: sorted by creation time, descending, and a
      permutation of the input. */
  function SortByCreatedDesc(s: seq<Bill>): (r: seq<Bill>)
    ensures SortedDesc(r)
    ensures multiset(r) == multiset(s)
  {
    if s == [] then []
    else
      assert s == [s[0]] + s[1..];
      Insert(s[0], SortByCreatedDesc(s[1..]))
  }

  function BillsOf(out: seq<BillView>): (bs: seq<Bill>)
    ensures |bs| == |out|
  {
    seq(|out|, k requires 0 <= k < |out| => out[k].bill)
  }

  // ---------------------------------------------------------------------
  // The store

  class Store {
    var users: map<string, UserRow>
    var bills: seq<Bill>
    var shares: seq<ShareRow>
    /** The next AUTOINCREMENT value of bills.id. */
    var nextBillId: int

    ghost predicate Valid()
      reads this
    {
      Consistent(users, bills, shares, nextBillId)
    }

    /** Empty tables and the seeded administrator. */
    constructor ()
      ensures Valid()
      ensures users == map[ADMIN := UserRow("admin123", true)]
      ensures bills == [] && shares == [] && nextBillId == 1
    {
      users := map[ADMIN := UserRow("admin123", true)];
      bills := [];
      shares := [];
      nextBillId := 1;
    }

    /** `is_admin_username`: an empty name is never an administrator; in a
        consistent store the seeded administrator is the only one. */
    predicate IsAdminUsername(username: string)
      reads this
      ensures IsAdminUsername(username) ==> username != "" && username in users
      ensures Valid() ==> (IsAdminUsername(username) <==> username == ADMIN)
    {
      username != "" && username in users && users[username].isAdmin
    }

    /** The participants left after dropping the administrators, in order. */
    function NonAdmin(ps: seq<string>): (r: seq<string>)
      reads this
      ensures |r| <= |ps|
      ensures forall p :: p in r <==> p in ps && !IsAdminUsername(p)
      ensures |ps| == 1 ==> r == if IsAdminUsername(ps[0]) then [] else ps
    {
      if ps == [] then []
      else
        var p, last := ps[..|ps| - 1], ps[|ps| - 1];
        assert ps == p + [last];
        NonAdmin(p) + (if IsAdminUsername(last) then [] else [last])
    }

    /** The filter works name by name: filtering a concatenation is the
        concatenation of the filtered parts, so the kept names stay in input
        order with their repeats. */
    lemma {:induction false} NonAdminAppend(a: seq<string>, b: seq<string>)
      ensures NonAdmin(a + b) == NonAdmin(a) + NonAdmin(b)
      decreases |b|
    {
      if b == [] {
        assert a + b == a;
      } else {
        var b', x := b[..|b| - 1], b[|b| - 1];
        assert (a + b)[..|a + b| - 1] == a + b' && (a + b)[|a + b| - 1] == x;
        NonAdminAppend(a, b');
      }
    }

    /** The bills a listing covers: all of them without a username, with the
        empty username or for an administrator; otherwise those in which
        that user has a share. */
    function Visible(username: Option<string>): (r: seq<Bill>)
      reads this
      ensures multiset(r) <= multiset(bills)
      ensures username.None? || username.value == "" || IsAdminUsername(username.value) ==> r == bills
      ensures username.Some? && username.value != "" && !IsAdminUsername(username.value) ==>
                forall b :: b in r <==> b in bills && HasShare(shares, b.id, username.value)
    {
      if username.None? || username.value == "" || IsAdminUsername(username.value) then bills
      else BillsSharedWith(bills, shares, username.value)
    }

    /** `admin_add_user`. */
    method AddUser(admin: string, username: string, password: string) returns (r: Result<()>)
      requires Valid()
      modifies this
      ensures Valid()
      ensures admin == "" || username == "" || password == "" ==>
                r == Err(InvalidInput("admin, username and password required"))
      ensures admin != "" && username != "" && password != "" && !old(IsAdminUsername(admin)) ==>
                r == Err(Unauthorized)
      ensures admin != "" && username != "" && password != "" && old(IsAdminUsername(admin)) && username in old(users) ==>
                r == Err(Conflict)
      ensures r.Ok? <==> admin != "" && username != "" && password != "" && old(IsAdminUsername(admin)) && username !in old(users)
      ensures users == if r.Ok? then old(users)[username := UserRow(password, false)] else old(users)
      ensures bills == old(bills) && shares == old(shares) && nextBillId == old(nextBillId)
    {
      if admin == "" || username == "" || password == "" {
        return Err(InvalidInput("admin, username and password required"));
      }
      if !IsAdminUsername(admin) {
        return Err(Unauthorized);
      }
      if username in users {
        return Err(Conflict);
      }
      users := users[username := UserRow(password, false)];
      r := Ok(());
    }

    /** `admin_delete_user`. The user's shares stay, as the source keeps them. */
    method DeleteUser(admin: string, username: string) returns (r: Result<()>)
      requires Valid()
      modifies this
      ensures Valid()
      ensures admin == "" || username == "" ==> r == Err(InvalidInput("admin and username required"))
      ensures admin != "" && username == ADMIN ==> r == Err(InvalidInput("cannot delete admin"))
      ensures admin != "" && username != "" && username != ADMIN && !old(IsAdminUsername(admin)) ==>
                r == Err(Unauthorized)
      ensures r.Ok? <==> admin != "" && username != "" && username != ADMIN && old(IsAdminUsername(admin))
      ensures users == if r.Ok? then old(users) - {username} else old(users)
      ensures bills == old(bills) && shares == old(shares) && nextBillId == old(nextBillId)
    {
      if admin == "" || username == "" {
        return Err(InvalidInput("admin and username required"));
      }
      if username == ADMIN {
        return Err(InvalidInput("cannot delete admin"));
      }
      if !IsAdminUsername(admin) {
        return Err(Unauthorized);
      }
      users := users - {username};
      r := Ok(());
    }

    /** `POST /api/bills`: drop administrator participants, distribute, then
        insert the bill and one share row per distributed tuple. The clock is
        read twice: `paidNow` inside the distribution stamps the creator's
        share, `now` afterwards stamps the bill. */
    method CreateBill(creator: string, amount: int, date: string, description: string,
                      participants: seq<string>, discount: bool, paidNow: Timestamp, now: Timestamp)
      returns (r: Result<int>)
      requires Valid()
      modifies this
      ensures Valid()
      ensures creator == "" ==> r == Err(InvalidInput("creator required"))
      ensures creator == "" ==> users == old(users) && bills == old(bills) && shares == old(shares) && nextBillId == old(nextBillId)
      ensures creator != "" ==>
                && r == Ok(old(nextBillId))
                && bills == old(bills) + [NewBill(old(nextBillId), creator, amount, date, description, discount, now)]
                && shares == old(shares) + RowsFor(old(nextBillId), Distribute(amount, old(NonAdmin(participants)), creator, discount, paidNow))
                && users == old(users) && nextBillId == old(nextBillId) + 1
    {
      if creator == "" {
        return Err(InvalidInput("creator required"));
      }
      var kept := NonAdmin(participants);
      var allots := DistributeShares(amount, kept, creator, discount, paidNow);
      var id := nextBillId;
      NewRows(id, amount, kept, creator, discount, paidNow);
      InsertBill(NewBill(id, creator, amount, date, description, discount, now), RowsFor(id, allots));
      r := Ok(id);
    }

    /** The INSERT of a bill with the next id, then of its share rows: rows
        with distinct users that sum to the amount and include the creator's
        paid share keep the tables consistent. */
    method InsertBill(nb: Bill, rows: seq<ShareRow>)
      requires Valid()
      requires nb.id == nextBillId
      requires forall s :: s in rows ==> s.billId == nb.id
      requires forall i, j :: 0 <= i < j < |rows| ==> rows[i].username != rows[j].username
      requires BillTotal(rows, nb.id) == nb.amount && HasPaidShare(rows, nb.id, nb.creator)
      requires forall s :: s in rows ==> (s.paid <==> s.paidAt.Some?)
      modifies this
      ensures Valid()
      ensures bills == old(bills) + [nb] && shares == old(shares) + rows && nextBillId == old(nextBillId) + 1
      ensures users == old(users)
    {
      AppendBillKeepsConsistent(users, bills, shares, nextBillId, nb, rows);
      bills, shares, nextBillId := bills + [nb], shares + rows, nextBillId + 1;
    }

    /** `pay_share`: the one-shot unpaid-to-paid transition of one share. */
    method PayShare(billId: int, username: string, now: Timestamp) returns (r: Result<()>)
      requires Valid()
      modifies this
      ensures Valid()
      ensures username == "" ==> r == Err(InvalidInput("username required"))
      ensures username != "" && !HasShare(old(shares), billId, username) ==> r == Err(NotFound)
      ensures username != "" && HasPaidShare(old(shares), billId, username) ==> r == Err(AlreadyPaid)
      ensures r.Ok? <==> username != "" && HasShare(old(shares), billId, username) && !HasPaidShare(old(shares), billId, username)
      ensures r.Ok? ==> FindShare(old(shares), billId, username).Some?
                        && shares == PaidAt(old(shares), FindShare(old(shares), billId, username).value, now)
      ensures r.Ok? ==> |shares| == |old(shares)|
                        && forall j :: 0 <= j < |shares| ==>
                             shares[j] == if old(shares)[j].billId == billId && old(shares)[j].username == username
                                          then old(shares)[j].(paid := true, paidAt := Some(now))
                                          else old(shares)[j]
      ensures r.Err? ==> shares == old(shares)
      ensures users == old(users) && bills == old(bills) && nextBillId == old(nextBillId)
    {
      if username == "" {
        return Err(InvalidInput("username required"));
      }
      var found := FindShare(shares, billId, username);
      if found.None? {
        return Err(NotFound);
      }
      var k := found.value;
      if shares[k].paid {
        return Err(AlreadyPaid);
      }
      FoundIsOnly(shares, billId, username);
      MarkPaid(billId, username, k, now);
      r := Ok(());
    }

    /** The UPDATE of the one share row of `username` on the bill, found at
        index k: it becomes paid at `now` and no other row changes. */
    method MarkPaid(billId: int, username: string, k: nat, now: Timestamp)
      requires Valid()
      requires FindShare(shares, billId, username) == Some(k)
      modifies this
      ensures Valid()
      ensures shares == PaidAt(old(shares), k, now)
      ensures forall j :: 0 <= j < |shares| ==>
                shares[j] == if old(shares)[j].billId == billId && old(shares)[j].username == username
                             then old(shares)[j].(paid := true, paidAt := Some(now))
                             else old(shares)[j]
      ensures users == old(users) && bills == old(bills) && nextBillId == old(nextBillId)
    {
      PaidOnlyThatRow(shares, billId, username, k, now);
      PayKeepsConsistent(users, bills, shares, nextBillId, k, now);
      var paid := PaidAt(shares, k, now);
      shares := paid;
    }

    /** `admin_delete_bill`: the bill's shares, then the bill. */
    method DeleteBill(admin: string, billId: int) returns (r: Result<()>)
      requires Valid()
      modifies this
      ensures Valid()
      ensures admin == "" || billId == 0 ==> r == Err(InvalidInput("admin and bill_id required"))
      ensures admin != "" && billId != 0 && !old(IsAdminUsername(admin)) ==> r == Err(Unauthorized)
      ensures r.Ok? <==> admin != "" && billId != 0 && old(IsAdminUsername(admin))
      ensures r.Ok? ==> bills == WithoutBill(old(bills), billId) && shares == WithoutShares(old(shares), billId)
      ensures r.Ok? ==> (forall b :: b in bills ==> b.id != billId) && (forall s :: s in shares ==> s.billId != billId)
      ensures r.Err? ==> bills == old(bills) && shares == old(shares)
      ensures users == old(users) && nextBillId == old(nextBillId)
    {
      if admin == "" || billId == 0 {
        return Err(InvalidInput("admin and bill_id required"));
      }
      if !IsAdminUsername(admin) {
        return Err(Unauthorized);
      }
      DeleteBillKeepsConsistent(users, bills, shares, nextBillId, billId);
      shares := WithoutShares(shares, billId);
      bills := WithoutBill(bills, billId);
      r := Ok(());
    }

    /** `GET /api/bills`: the visible bills, newest first, each expanded with
        its share rows. */
    method ListBills(username: Option<string>) returns (out: seq<BillView>)
      ensures SortedDesc(BillsOf(out))
      ensures multiset(BillsOf(out)) == multiset(Visible(username))
      ensures username.None? || username.value == "" || IsAdminUsername(username.value) ==>
                multiset(BillsOf(out)) == multiset(bills)
      ensures username.Some? && username.value != "" && !IsAdminUsername(username.value) ==>
                forall b :: b in BillsOf(out) <==> b in bills && HasShare(shares, b.id, username.value)
      ensures forall k :: 0 <= k < |out| ==> out[k].shares == SharesOf(shares, out[k].bill.id)
    {
      var selected := Visible(username);
      var rows := SortByCreatedDesc(selected);
      out := ExpandShares(rows);
      SameMembers(rows, selected);
    }

    /** The `bills_out` loop: each selected bill, in order, with its share rows. */
    method ExpandShares(rows: seq<Bill>) returns (out: seq<BillView>)
      ensures BillsOf(out) == rows
      ensures forall k :: 0 <= k < |out| ==> out[k].shares == SharesOf(shares, out[k].bill.id)
    {
      out := [];
      for i := 0 to |rows|
        invariant |out| == i
        invariant forall k :: 0 <= k < i ==> out[k] == BillView(rows[k], SharesOf(shares, rows[k].id))
      {
        out := out + [BillView(rows[i], SharesOf(shares, rows[i].id))];
      }
    }
  }

  /** Two lists holding the same bills as multisets hold the same bills. */
  lemma SameMembers(a: seq<Bill>, b: seq<Bill>)
    requires multiset(a) == multiset(b)
    ensures forall x :: x in a <==> x in b
  {
    forall x ensures x in a <==> x in b {
      assert x in a <==> x in multiset(a);
      assert x in b <==> x in multiset(b);
    }
  }

  // ---------------------------------------------------------------------
  // Properties of the store

  /** Bill creation never offers an administrator's own name to the
      distributor; only a name equal to the creator can bring "admin" in. */
  lemma CreateDropsAdmins(st: Store, participants: seq<string>)
    requires st.Valid()
    ensures ADMIN !in st.NonAdmin(participants)
    ensures forall p :: p in participants && p != ADMIN ==> p in st.NonAdmin(participants)
  {
  }

  /** The administrator's name with a blank in front is another name that
      strips to the administrator's name. */
  lemma StripPaddedAdmin()
    ensures " " + ADMIN != ADMIN
    ensures Strip(" " + ADMIN) == ADMIN
  {
    assert |" " + ADMIN| != |ADMIN|;
    StripLeadingSpace(' ', ADMIN);
  }

  /** The filter tests each name before it is stripped: a name such as
      " admin" (StripPaddedAdmin) passes it, and the distributor then strips
      it to the administrator's name. */
  lemma PaddedAdminPassesFilter(st: Store, p: string)
    requires st.Valid()
    requires p != ADMIN && Strip(p) == ADMIN
    ensures st.NonAdmin([p]) == [p]
    ensures Participants(st.NonAdmin([p])) == [ADMIN]
  {
    var none: seq<string> := [];
    assert st.NonAdmin([p]) == [p] by {
      assert [p][..0] == none;
    }
    assert DedupFrom([p], {}) == [ADMIN] + DedupFrom(none, {ADMIN}) by {
      assert [p][1..] == none;
    }
  }
}
