/** The read queries the handlers put to the database (`findUnique`,
    `findFirst`, `findMany` with a `where` filter), as functions of the
    table contents. A `findMany` without `orderBy` promises no order; the
    model answers in table order, one order the database may use.
    `orderBy` is in Sorting. */
module Tables {
  import opened Model

  ghost predicate UniqueAuctionIds(auctions: seq<Auction>)
  {
    forall i, j :: 0 <= i < j < |auctions| ==> auctions[i].id != auctions[j].id
  }

  ghost predicate UniqueBidIds(bids: seq<Bid>)
  {
    forall i, j :: 0 <= i < j < |bids| ==> bids[i].id != bids[j].id
  }

  /** `prisma.auction.findUnique({ where: { id } })`. */
  function FindAuction(auctions: seq<Auction>, id: Id): (r: Option<Auction>)
    ensures r.Some? ==> r.value in auctions && r.value.id == id
    ensures r.None? <==> forall a :: a in auctions ==> a.id != id
  {
    if |auctions| == 0 then None
    else if auctions[0].id == id then Some(auctions[0])
    else
      assert auctions == [auctions[0]] + auctions[1..];
      FindAuction(auctions[1..], id)
  }

  /** Under the primary-key constraint the lookup finds the one row with that id. */
  lemma {:induction false} FindAuctionAt(auctions: seq<Auction>, i: nat)
    requires UniqueAuctionIds(auctions)
    requires i < |auctions|
    ensures FindAuction(auctions, auctions[i].id) == Some(auctions[i])
  {
    if i > 0 {
      assert auctions[0].id != auctions[i].id;
      assert auctions[1..][i - 1] == auctions[i];
      FindAuctionAt(auctions[1..], i - 1);
    }
  }

  /** `findFirst({ where: { title, buyerId } })`. */
  function FindTitled(auctions: seq<Auction>, title: string, buyerId: Id): (r: Option<Auction>)
    ensures r.Some? ==> r.value in auctions && r.value.title == title && r.value.buyerId == buyerId
    ensures r.None? <==> forall a :: a in auctions ==> !(a.title == title && a.buyerId == buyerId)
  {
    if |auctions| == 0 then None
    else if auctions[0].title == title && auctions[0].buyerId == buyerId then Some(auctions[0])
    else
      assert auctions == [auctions[0]] + auctions[1..];
      FindTitled(auctions[1..], title, buyerId)
  }

  /** `findMany({ where: { column: value } })`: the rows whose column holds
      the value. The model lists them in table order; the database promises
      no order, so contracts state contents (`WhereMembers`, `WhereCount`). */
  function Where<T>(rows: seq<T>, column: T -> string, value: string): (r: seq<T>)
    ensures |r| <= |rows|
  {
    if |rows| == 0 then []
    else
      var n := |rows| - 1;
      var init := Where(rows[..n], column, value);
      if column(rows[n]) == value then init + [rows[n]] else init
  }

  /** The filter keeps exactly the rows whose column holds the value. */
  lemma {:induction false} WhereMembers<T>(rows: seq<T>, column: T -> string, value: string)
    ensures forall x :: x in Where(rows, column, value) <==> x in rows && column(x) == value
  {
    if |rows| > 0 {
      var n := |rows| - 1;
      assert rows == rows[..n] + [rows[n]];
      WhereMembers(rows[..n], column, value);
    }
  }

  /** A matching row is kept as often as the table holds it; any other row
      not at all. */
  lemma {:induction false} WhereCount<T>(rows: seq<T>, column: T -> string, value: string)
    ensures forall x ::
      multiset(Where(rows, column, value))[x] == (if column(x) == value then multiset(rows)[x] else 0)
  {
    if |rows| > 0 {
      var n := |rows| - 1;
      assert rows == rows[..n] + [rows[n]];
      WhereCount(rows[..n], column, value);
    }
  }

  /** The model's filter keeps two matching rows in their relative table
      order. This is a fact about the model's answer, not a promise of the
      database. */
  lemma {:induction false} WhereOrder<T>(rows: seq<T>, column: T -> string, value: string, i: nat, j: nat)
    returns (p: nat, q: nat)
    requires i < j < |rows|
    requires column(rows[i]) == value && column(rows[j]) == value
    ensures p < q < |Where(rows, column, value)|
    ensures Where(rows, column, value)[p] == rows[i] && Where(rows, column, value)[q] == rows[j]
  {
    var n := |rows| - 1;
    var init := Where(rows[..n], column, value);
    assert rows[..n][i] == rows[i];
    if j == n {
      assert Where(rows, column, value) == init + [rows[n]];
      WhereMembers(rows[..n], column, value);
      assert rows[i] in init;
      p :| 0 <= p < |init| && init[p] == rows[i];
      q := |init|;
    } else {
      assert rows[..n][j] == rows[j];
      p, q := WhereOrder(rows[..n], column, value, i, j);
      assert Where(rows, column, value) == init + (if column(rows[n]) == value then [rows[n]] else []);
    }
  }

  function BuyerOf(a: Auction): Id
  {
    a.buyerId
  }

  function AuctionOf(b: Bid): Id
  {
    b.auctionId
  }

  /** `findMany({ where: { buyerId } })`. */
  function OwnedBy(auctions: seq<Auction>, buyerId: Id): seq<Auction>
  {
    Where(auctions, BuyerOf, buyerId)
  }

  /** `findMany({ where: { auctionId } })`. */
  function InAuction(bids: seq<Bid>, auctionId: Id): seq<Bid>
  {
    Where(bids, AuctionOf, auctionId)
  }

  /** The filter keeps exactly the auction's rows. */
  lemma InAuctionMembers(bids: seq<Bid>, auctionId: Id)
    ensures forall b :: b in InAuction(bids, auctionId) <==> b in bids && b.auctionId == auctionId
  {
    WhereMembers(bids, AuctionOf, auctionId);
  }

  /** The rows of one auction are a sub-table, so their ids stay unique. */
  lemma {:induction false} InAuctionUnique(bids: seq<Bid>, auctionId: Id)
    requires UniqueBidIds(bids)
    ensures UniqueBidIds(InAuction(bids, auctionId))
  {
    if |bids| > 0 {
      var n := |bids| - 1;
      InAuctionUnique(bids[..n], auctionId);
      InAuctionMembers(bids[..n], auctionId);
      var init := InAuction(bids[..n], auctionId);
      forall b | b in init ensures b.id != bids[n].id {
        var k :| 0 <= k < n && bids[..n][k] == b;
      }
    }
  }

  /** Two tables that agree on every row of an auction, row by row, and whose
      extra rows belong elsewhere, hold the same rows for that auction. */
  lemma {:induction false} InAuctionFramed(x: seq<Bid>, y: seq<Bid>, auctionId: Id)
    requires |x| <= |y|
    requires forall k :: 0 <= k < |x| && (x[k].auctionId == auctionId || y[k].auctionId == auctionId) ==> y[k] == x[k]
    requires forall k :: |x| <= k < |y| ==> y[k].auctionId != auctionId
    ensures InAuction(y, auctionId) == InAuction(x, auctionId)
  {
    if |y| > 0 {
      var n := |y| - 1;
      if n < |x| {
        InAuctionFramed(x[..n], y[..n], auctionId);
        assert InAuction(y, auctionId) == InAuction(y[..n], auctionId) + (if y[n].auctionId == auctionId then [y[n]] else []);
        assert InAuction(x, auctionId) == InAuction(x[..n], auctionId) + (if x[n].auctionId == auctionId then [x[n]] else []);
      } else {
        InAuctionFramed(x, y[..n], auctionId);
        assert InAuction(y, auctionId) == InAuction(y[..n], auctionId);
      }
    }
  }

  /** Two tables whose rows carry the same auction ids, row by row, have the
      same number of rows in every auction. */
  lemma {:induction false} InAuctionCount(x: seq<Bid>, y: seq<Bid>, auctionId: Id)
    requires |x| == |y|
    requires forall k :: 0 <= k < |x| ==> x[k].auctionId == y[k].auctionId
    ensures |InAuction(y, auctionId)| == |InAuction(x, auctionId)|
  {
    if |y| > 0 {
      var n := |y| - 1;
      InAuctionCount(x[..n], y[..n], auctionId);
    }
  }

  predicate BidBy(b: Bid, auctionId: Id, supplierId: Id)
  {
    b.auctionId == auctionId && b.supplierId == supplierId
  }

  /** `last` is an answer the database may give to the latest-bid query:
      none when the supplier has not bid in the auction, otherwise one of
      the supplier's bids there with the greatest createdAt. When several
      share that createdAt, any of them may be the answer. */
  ghost predicate IsLatest(last: Option<Bid>, bids: seq<Bid>, auctionId: Id, supplierId: Id)
  {
    && (last.None? <==> forall b :: b in bids ==> !BidBy(b, auctionId, supplierId))
    && (last.Some? ==>
          && last.value in bids && BidBy(last.value, auctionId, supplierId)
          && forall b :: b in bids && BidBy(b, auctionId, supplierId) ==> b.createdAt <= last.value.createdAt)
  }

  /** `findFirst({ where: { auctionId, supplierId }, orderBy: { createdAt: "desc" } })`:
      a bid of that supplier in that auction with the greatest createdAt, or
      none when the supplier has not bid there. Among bids with equal
      createdAt it picks the first in table order, one of the answers
      `IsLatest` allows. */
  function LatestBid(bids: seq<Bid>, auctionId: Id, supplierId: Id): (r: Option<Bid>)
    ensures r.None? <==> forall b :: b in bids ==> !BidBy(b, auctionId, supplierId)
    ensures r.Some? ==> r.value in bids && BidBy(r.value, auctionId, supplierId)
    ensures r.Some? ==> forall b :: b in bids && BidBy(b, auctionId, supplierId) ==> b.createdAt <= r.value.createdAt
  {
    if |bids| == 0 then None
    else
      assert bids == [bids[0]] + bids[1..];
      var rest := LatestBid(bids[1..], auctionId, supplierId);
      if BidBy(bids[0], auctionId, supplierId) && (rest.None? || rest.value.createdAt <= bids[0].createdAt)
      then Some(bids[0])
      else rest
  }

  ghost predicate UniqueEmails(users: seq<User>)
  {
    forall i, j :: 0 <= i < j < |users| ==> users[i].email != users[j].email
  }

  /** `prisma.user.findUnique({ where: { email } })`. */
  function UserByEmail(users: seq<User>, email: string): (r: Option<User>)
    ensures r.Some? ==> r.value in users && r.value.email == email
    ensures r.None? <==> forall u :: u in users ==> u.email != email
  {
    if |users| == 0 then None
    else if users[0].email == email then Some(users[0])
    else
      assert users == [users[0]] + users[1..];
      UserByEmail(users[1..], email)
  }

  /** Under the `@unique` constraint on email the lookup finds the one user
      with that email. */
  lemma {:induction false} UserByEmailUnique(users: seq<User>, i: nat)
    requires UniqueEmails(users)
    requires i < |users|
    ensures UserByEmail(users, users[i].email) == Some(users[i])
  {
    if i > 0 {
      assert users[0].email != users[i].email;
      assert users[1..][i - 1] == users[i];
      UserByEmailUnique(users[1..], i - 1);
    }
  }
}
