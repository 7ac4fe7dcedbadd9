/** The bid endpoint of the App Router (`/api/bid`): GET answers a
    supplier's latest bid in an auction; POST runs a first-failure-wins
    validation chain, appends the bid and re-ranks the auction. */
module BidRoute {
  import opened Model
  import opened Tables
  import opened Ranking
  import opened Db

  /** GET: both query parameters are required; the answer is the supplier's
      bid in that auction with the greatest createdAt, or none. */
  function GetSupplierBid(bids: seq<Bid>, auctionId: Option<string>, supplierId: Option<string>): (r: Result<Option<Bid>>)
    ensures r.Err? <==> !Truthy(auctionId) || !Truthy(supplierId)
    ensures r.Err? ==> r.error == MissingParameter
    ensures r.Ok? ==> (r.value.None? <==> forall b :: b in bids ==> !BidBy(b, auctionId.value, supplierId.value))
    ensures r.Ok? && r.value.Some? ==>
      && r.value.value in bids
      && BidBy(r.value.value, auctionId.value, supplierId.value)
      && forall b :: b in bids && BidBy(b, auctionId.value, supplierId.value) ==> b.createdAt <= r.value.value.createdAt
  {
    if !Truthy(auctionId) || !Truthy(supplierId) then Err(MissingParameter)
    else Ok(LatestBid(bids, auctionId.value, supplierId.value))
  }

  /** The two bid rules of this copy, for a supplier whose latest bid is
      `last`: strictly lower than it, and lower by at least `minDecrement`
      (exactly `minDecrement` lower is allowed). */
  predicate Undercuts(amount: int, last: int, minDecrement: int)
  {
    amount < last && amount <= last - minDecrement
  }

  /** All three body fields are truthy (so an amount of 0 is missing). */
  predicate HasFields(body: BidBody)
  {
    Truthy(body.auctionId) && Truthy(body.supplierId) && TruthyNum(body.amount)
  }

  /** The fields are present and the auction exists and has not ended: the
      point where the chain turns to the supplier's previous bid. */
  predicate Open(auctions: seq<Auction>, body: BidBody, now: int)
  {
    && HasFields(body)
    && FindAuction(auctions, body.auctionId.value).Some?
    && now < FindAuction(auctions, body.auctionId.value).value.endTime
  }

  /** The POST validation chain; the first failing check decides. `last` is
      the answer to the latest-bid query for the body's auction and
      supplier (`Tables.IsLatest`). */
  function Decide(auctions: seq<Auction>, body: BidBody, last: Option<Bid>, now: int): (v: Verdict)
    // missing fields are reported whatever the tables hold
    ensures v == Reject(MissingFields) <==> !HasFields(body)
    ensures v == Reject(NotFound) <==> HasFields(body) && FindAuction(auctions, body.auctionId.value).None?
    // an auction whose end time has come rejects every amount
    ensures v == Reject(AuctionEnded) <==>
      && HasFields(body)
      && FindAuction(auctions, body.auctionId.value).Some?
      && FindAuction(auctions, body.auctionId.value).value.endTime <= now
    ensures v == Reject(NotLowerThanPrevious) <==>
      Open(auctions, body, now) && last.Some? && body.amount.value >= last.value.amount
    ensures v == Reject(DecrementTooSmall) <==>
      && Open(auctions, body, now) && last.Some? && body.amount.value < last.value.amount
      && body.amount.value > last.value.amount - FindAuction(auctions, body.auctionId.value).value.minDecrementValue
    ensures v == Reject(InvalidInitialAmount) <==> Open(auctions, body, now) && last.None? && body.amount.value <= 0
    ensures v == Accept <==>
      && Open(auctions, body, now)
      && if last.Some?
         then Undercuts(body.amount.value, last.value.amount, FindAuction(auctions, body.auctionId.value).value.minDecrementValue)
         else 0 < body.amount.value
  {
    if !HasFields(body) then Reject(MissingFields)
    else
      var amount := body.amount.value;
      match FindAuction(auctions, body.auctionId.value)
      case None => Reject(NotFound)
      case Some(auction) =>
        if auction.endTime <= now then Reject(AuctionEnded)
        else if last.Some? && amount >= last.value.amount then Reject(NotLowerThanPrevious)
        else if last.Some? && amount > last.value.amount - auction.minDecrementValue then Reject(DecrementTooSmall)
        else if last.None? && amount <= 0 then Reject(InvalidInitialAmount)
        else Accept
  }

  /** A bid exactly `minDecrementValue` below the supplier's latest one is
      accepted while the auction is open. */
  lemma ExactDecrementAccepted(auctions: seq<Auction>, body: BidBody, last: Option<Bid>, now: int)
    requires Open(auctions, body, now)
    requires 0 < FindAuction(auctions, body.auctionId.value).value.minDecrementValue
    requires last.Some?
    requires body.amount.value == last.value.amount - FindAuction(auctions, body.auctionId.value).value.minDecrementValue
    ensures Decide(auctions, body, last, now) == Accept
  {
  }

  /** Bids with equal createdAt make the verdict depend on which of them the
      latest-bid query answers: after 1000 and 900 stamped at the same
      instant, 850 is accepted against the first and refused against the
      second (minimum decrement 100). */
  lemma TiedLatestBids()
    ensures
      var auctions := [Auction("a", "t", None, "u", None, 100, 0, 10, true, [], 0)];
      var bids := [Bid("b1", "a", "s", 1000, None, 5), Bid("b2", "a", "s", 900, None, 5)];
      var body := BidBody(Some("a"), Some("s"), Some(850));
      && IsLatest(Some(bids[0]), bids, "a", "s") && IsLatest(Some(bids[1]), bids, "a", "s")
      && Decide(auctions, body, Some(bids[0]), 1) == Accept
      && Decide(auctions, body, Some(bids[1]), 1) == Reject(DecrementTooSmall)
  {
  }

  /** POST /api/bid: `last` is the answer the latest-bid query gave. On a
      rejection nothing is written; on acceptance one row is appended
      (unranked, stamped `now`) and the loop then writes ranks 1..N over the
      auction's rows in ascending amount order. `order` is the answer the
      ranking query gave. */
  method PlaceBid(db: Store, body: BidBody, now: int) returns (r: Result<Bid>, ghost last: Option<Bid>, ghost order: seq<Bid>)
    requires db.Valid()
    modifies db`bids, db`nextKey
    ensures db.Valid()
    ensures HasFields(body) ==> IsLatest(last, old(db.bids), body.auctionId.value, body.supplierId.value)
    ensures r.Err? <==> Decide(old(db.auctions), body, last, now).Reject?
    ensures r.Err? ==> Decide(old(db.auctions), body, last, now) == Reject(r.error)
    ensures r.Err? ==> db.bids == old(db.bids) && db.nextKey == old(db.nextKey)
    ensures r.Ok? ==>
      && r.value == Bid(r.value.id, body.auctionId.value, body.supplierId.value, body.amount.value, None, now)
      && (forall b :: b in old(db.bids) ==> b.id != r.value.id)
      && IsAscendingSnapshot(order, old(db.bids) + [r.value], r.value.auctionId)
      && db.bids == ApplyRanks(old(db.bids) + [r.value], order)
    // the table gains exactly the new row; only ranks change elsewhere
    ensures r.Ok? ==>
      && |db.bids| == |old(db.bids)| + 1
      && db.bids[|old(db.bids)|] == r.value.(rank := db.bids[|old(db.bids)|].rank)
      && (forall k :: 0 <= k < |old(db.bids)| ==> db.bids[k] == old(db.bids)[k].(rank := db.bids[k].rank))
      && (forall k :: 0 <= k < |old(db.bids)| && old(db.bids)[k].auctionId != r.value.auctionId ==> db.bids[k] == old(db.bids)[k])
      && RankedAuction(db.bids, r.value.auctionId)
  {
    var lastBid := None;
    if HasFields(body) {
      lastBid := LatestBid(db.bids, body.auctionId.value, body.supplierId.value);
    }
    last := lastBid;
    var verdict := Decide(db.auctions, body, lastBid, now);
    if verdict.Reject? {
      return Err(verdict.error), last, [];
    }
    var row := db.InsertBid(Bid("", body.auctionId.value, body.supplierId.value, body.amount.value, None, now));
    order := db.RecomputeRanks(row.auctionId);
    r := Ok(row);
  }

  /** The amounts one supplier got accepted in one auction, oldest first,
      each one checked against the one before it. */
  ghost predicate AcceptedSeries(amounts: seq<int>, minDecrement: int)
  {
    && (|amounts| > 0 ==> 0 < amounts[0])
    && forall i :: 0 < i < |amounts| ==> Undercuts(amounts[i], amounts[i - 1], minDecrement)
  }

  /** Along such a series amounts strictly fall, each later amount at least
      `minDecrement` per step below an earlier one when that is non-negative. */
  lemma {:induction false} AcceptedSeriesFalls(amounts: seq<int>, minDecrement: int, i: nat, j: nat)
    requires AcceptedSeries(amounts, minDecrement)
    requires i < j < |amounts|
    ensures amounts[j] < amounts[i]
    ensures 0 <= minDecrement ==> amounts[i] - amounts[j] >= (j - i) * minDecrement
  {
    if j > i + 1 {
      AcceptedSeriesFalls(amounts, minDecrement, i, j - 1);
      assert Undercuts(amounts[j], amounts[j - 1], minDecrement);
    }
  }
}
