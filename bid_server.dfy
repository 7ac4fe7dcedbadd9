/** The second copy of the bid handlers (`src/server/api/bid.ts`): a zod
    schema in place of the truthiness checks, an `isActive` flag, a strict
    minimum decrement and no separate "lower than previous" rule; its GET
    lists the auction's bids or answers one supplier's view of them. */
module BidServer {
  import opened Model
  import opened Sorting
  import opened Tables
  import opened Ranking
  import opened Db
  import BidRoute

  /** `bidSchema`: two strings (the empty string included) and a positive number. */
  predicate BidSchema(body: BidBody)
  {
    body.auctionId.Some? && body.supplierId.Some? && body.amount.Some? && 0 < body.amount.value
  }

  /** The body passes the schema and the auction exists, is active and has
      not ended: the point where the chain turns to the previous bid. */
  predicate Live(auctions: seq<Auction>, body: BidBody, now: int)
  {
    && BidSchema(body)
    && FindAuction(auctions, body.auctionId.value).Some?
    && FindAuction(auctions, body.auctionId.value).value.isActive
    && now <= FindAuction(auctions, body.auctionId.value).value.endTime
  }

  /** The POST validation chain of this copy; the first failing check
      decides. `last` is the answer to the latest-bid query for the body's
      auction and supplier (`Tables.IsLatest`). */
  function Decide(auctions: seq<Auction>, body: BidBody, last: Option<Bid>, now: int): (v: Verdict)
    ensures v == Reject(InvalidInput) <==> !BidSchema(body)
    ensures v == Reject(NotFound) <==> BidSchema(body) && FindAuction(auctions, body.auctionId.value).None?
    ensures v == Reject(AuctionEnded) <==>
      && BidSchema(body)
      && FindAuction(auctions, body.auctionId.value).Some?
      && (!FindAuction(auctions, body.auctionId.value).value.isActive ||
          now > FindAuction(auctions, body.auctionId.value).value.endTime)
    ensures v == Reject(DecrementTooSmall) <==>
      && Live(auctions, body, now) && last.Some?
      && body.amount.value >= last.value.amount - FindAuction(auctions, body.auctionId.value).value.minDecrementValue
    ensures v == Accept <==>
      && Live(auctions, body, now)
      && (last.Some? ==>
            body.amount.value < last.value.amount - FindAuction(auctions, body.auctionId.value).value.minDecrementValue)
  {
    if !BidSchema(body) then Reject(InvalidInput)
    else
      var amount := body.amount.value;
      match FindAuction(auctions, body.auctionId.value)
      case None => Reject(NotFound)
      case Some(auction) =>
        if !auction.isActive || now > auction.endTime then Reject(AuctionEnded)
        else if last.Some? && amount >= last.value.amount - auction.minDecrementValue then Reject(DecrementTooSmall)
        else Accept
  }

  /** POST: `last` is the answer the latest-bid query gave. On a rejection
      nothing is written; on acceptance one unranked row stamped `now` is
      appended and the auction is re-ranked 1..N. */
  method PlaceBid(db: Store, body: BidBody, now: int) returns (r: Result<Bid>, ghost last: Option<Bid>, ghost order: seq<Bid>)
    requires db.Valid()
    modifies db`bids, db`nextKey
    ensures db.Valid()
    ensures BidSchema(body) ==> IsLatest(last, old(db.bids), body.auctionId.value, body.supplierId.value)
    ensures r.Err? <==> Decide(old(db.auctions), body, last, now).Reject?
    ensures r.Err? ==> Decide(old(db.auctions), body, last, now) == Reject(r.error)
    ensures r.Err? ==> db.bids == old(db.bids) && db.nextKey == old(db.nextKey)
    ensures r.Ok? ==>
      && r.value == Bid(r.value.id, body.auctionId.value, body.supplierId.value, body.amount.value, None, now)
      && (forall b :: b in old(db.bids) ==> b.id != r.value.id)
      && IsAscendingSnapshot(order, old(db.bids) + [r.value], r.value.auctionId)
      && db.bids == ApplyRanks(old(db.bids) + [r.value], order)
    ensures r.Ok? ==>
      && |db.bids| == |old(db.bids)| + 1
      && db.bids[|old(db.bids)|] == r.value.(rank := db.bids[|old(db.bids)|].rank)
      && (forall k :: 0 <= k < |old(db.bids)| ==> db.bids[k] == old(db.bids)[k].(rank := db.bids[k].rank))
      && (forall k :: 0 <= k < |old(db.bids)| && old(db.bids)[k].auctionId != r.value.auctionId ==> db.bids[k] == old(db.bids)[k])
      && RankedAuction(db.bids, r.value.auctionId)
  {
    var lastBid := None;
    if BidSchema(body) {
      lastBid := LatestBid(db.bids, body.auctionId.value, body.supplierId.value);
    }
    last := lastBid;
    var verdict := Decide(db.auctions, body, lastBid, now);
    if verdict.Reject? {
      return Err(verdict.error), last, [];
    }
    var row := db.InsertBid(Bid("", body.auctionId.value, body.supplierId.value, body.amount.value, None, now));
    order := db.RecomputeRanks(row.auctionId);
    r := Ok(row);
  }

  /** `bids.find(b => b.supplierId === supplierId)`: the first row of that
      supplier; in an ascending answer it has the supplier's lowest amount. */
  function FirstOf(order: seq<Bid>, supplierId: Id): (r: Option<Bid>)
    ensures r.None? <==> forall b :: b in order ==> b.supplierId != supplierId
    ensures r.Some? ==> r.value in order && r.value.supplierId == supplierId
    // the row found is the earliest of that supplier in the list
    ensures r.Some? ==> exists k ::
      0 <= k < |order| && order[k] == r.value && forall j :: 0 <= j < k ==> order[j].supplierId != supplierId
    ensures r.Some? && SortedBy(order, Amount) ==>
      forall b :: b in order && b.supplierId == supplierId ==> r.value.amount <= b.amount
  {
    if |order| == 0 then None
    else if order[0].supplierId == supplierId then Some(order[0])
    else
      assert order == [order[0]] + order[1..];
      assert SortedBy(order, Amount) ==> SortedBy(order[1..], Amount);
      var rest := FirstOf(order[1..], supplierId);
      if rest.Some? then
        var k :| 0 <= k < |order[1..]| && order[1..][k] == rest.value
          && forall j :: 0 <= j < k ==> order[1..][j].supplierId != supplierId;
        assert forall j :: 0 <= j < k + 1 ==> order[j].supplierId != supplierId by {
          forall j | 0 <= j < k + 1 ensures order[j].supplierId != supplierId {
            if j > 0 { assert order[j] == order[1..][j - 1]; }
          }
        }
        assert order[k + 1] == rest.value;
        rest
      else rest
  }

  /** What GET answers: the whole ascending list, or one supplier's view. */
  datatype BidsView =
    | AllBids(bids: seq<Bid>)
    | SupplierView(supplierBid: Option<Bid>, totalBidders: nat)

  /** GET: auctionId is required; with a (truthy) supplierId the answer is
      that supplier's lowest bid and the number of bid rows of the auction
      (rows, not distinct suppliers). */
  function GetBids(bids: seq<Bid>, auctionId: Option<string>, supplierId: Option<string>): (r: Result<BidsView>)
    ensures r.Err? <==> !Truthy(auctionId)
    ensures r.Err? ==> r.error == MissingParameter
    ensures r.Ok? && !Truthy(supplierId) ==>
      r.value.AllBids? && IsAscendingSnapshot(r.value.bids, bids, auctionId.value)
    ensures r.Ok? && Truthy(supplierId) ==>
      && r.value.SupplierView?
      && r.value.totalBidders == |InAuction(bids, auctionId.value)|
      && (r.value.supplierBid.None? <==> forall b :: b in bids ==> !BidBy(b, auctionId.value, supplierId.value))
    ensures r.Ok? && Truthy(supplierId) && r.value.supplierBid.Some? ==>
      && r.value.supplierBid.value in bids
      && BidBy(r.value.supplierBid.value, auctionId.value, supplierId.value)
      && forall b :: b in bids && BidBy(b, auctionId.value, supplierId.value) ==> r.value.supplierBid.value.amount <= b.amount
  {
    if !Truthy(auctionId) then Err(MissingParameter)
    else
      var order := AscendingSnapshot(bids, auctionId.value);
      if Truthy(supplierId) then
        var found := FirstOf(order, supplierId.value);
        SnapshotMembers(bids, order, auctionId.value);
        Ok(SupplierView(found, |order|))
      else Ok(AllBids(order))
  }

  /** The copies disagree at the deadline: at `now == endTime` the route
      copy reports the auction ended, this copy lets the bid through that
      check. */
  lemma DeadlineDiffers(auctions: seq<Auction>, body: BidBody, last: Option<Bid>, now: int)
    requires BidRoute.HasFields(body) && 0 < body.amount.value
    requires FindAuction(auctions, body.auctionId.value).Some?
    requires FindAuction(auctions, body.auctionId.value).value.isActive
    requires FindAuction(auctions, body.auctionId.value).value.endTime == now
    ensures BidRoute.Decide(auctions, body, last, now) == Reject(AuctionEnded)
    ensures Decide(auctions, body, last, now) != Reject(AuctionEnded)
  {
  }

  /** The copies disagree at an exact decrement: a bid exactly
      `minDecrementValue` below the supplier's latest one is accepted by the
      route copy and rejected by this copy. */
  lemma ExactDecrementDiffers(auctions: seq<Auction>, body: BidBody, last: Option<Bid>, now: int)
    requires BidRoute.Open(auctions, body, now) && 0 < body.amount.value
    requires FindAuction(auctions, body.auctionId.value).value.isActive
    requires 0 < FindAuction(auctions, body.auctionId.value).value.minDecrementValue
    requires last.Some?
    requires body.amount.value == last.value.amount - FindAuction(auctions, body.auctionId.value).value.minDecrementValue
    ensures BidRoute.Decide(auctions, body, last, now) == Accept
    ensures Decide(auctions, body, last, now) == Reject(DecrementTooSmall)
  {
  }

  /** Away from those edges this copy is the stricter one: given the same
      latest bid, with non-empty ids, a non-negative minimum decrement and
      the deadline still ahead, whatever it accepts the route copy accepts
      too. */
  lemma ServerAcceptIsRouteAccept(auctions: seq<Auction>, body: BidBody, last: Option<Bid>, now: int)
    requires Decide(auctions, body, last, now) == Accept
    requires Truthy(body.auctionId) && Truthy(body.supplierId)
    requires 0 <= FindAuction(auctions, body.auctionId.value).value.minDecrementValue
    requires now < FindAuction(auctions, body.auctionId.value).value.endTime
    ensures BidRoute.Decide(auctions, body, last, now) == Accept
  {
  }

  /** The schema and the route copy's truthiness checks part on empty ids:
      the schema lets them through, the route copy reports them missing.
      Otherwise a body that passes the schema has all fields. */
  lemma SchemaVersusFields(body: BidBody)
    requires BidSchema(body)
    ensures BidRoute.HasFields(body) <==> body.auctionId.value != "" && body.supplierId.value != ""
  {
  }
}
