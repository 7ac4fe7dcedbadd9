/** The second copy of the auction handlers (`src/server/api/auction.ts`):
    a zod schema instead of truthiness checks, no duplicate-title check, no
    invites (the emails are stored on the auction row), and an unsorted
    buyer listing. */
module AuctionServer {
  import opened Model
  import opened Tables
  import opened Db

  /** `auctionSchema`: a title of at least 3 UTF-16 code units, a buyerId string,
      at least one minute, a positive minimum decrement, and a list of
      emails (possibly empty). What counts as an email is `isEmail`. */
  predicate AuctionSchema(req: AuctionRequest, isEmail: string -> bool)
  {
    && req.title.Some? && Utf16Length(req.title.value) >= 3
    && req.buyerId.Some?
    && req.durationMinutes.Some? && req.durationMinutes.value >= 1
    && req.minDecrementValue.Some? && req.minDecrementValue.value > 0
    && req.invitedSuppliers.Some?
    && forall i :: 0 <= i < |req.invitedSuppliers.value| ==> isEmail(req.invitedSuppliers.value[i])
  }

  /** An empty list of emails passes the schema: this copy can create an
      auction nobody is invited to. */
  lemma EmptyInviteListAllowed(req: AuctionRequest, isEmail: string -> bool)
    requires req.title.Some? && Utf16Length(req.title.value) >= 3 && req.buyerId.Some?
    requires req.durationMinutes.Some? && req.durationMinutes.value >= 1
    requires req.minDecrementValue.Some? && req.minDecrementValue.value > 0
    requires req.invitedSuppliers == Some([])
    ensures AuctionSchema(req, isEmail)
  {
  }

  /** A title of one emoji and one letter is two characters but three
      UTF-16 code units, so it meets the minimum title length. */
  lemma AstralTitleLength()
    ensures |"\U{1F600}a"| == 2 && Utf16Length("\U{1F600}a") == 3
  {
    var t := "\U{1F600}a";
    assert t[..1][..0] == [];
    assert t[..1] == ['\U{1F600}'];
  }

  /** `description || ""`: absent and empty both become "". */
  function DescriptionOrEmpty(description: Option<string>): (d: string)
    ensures description.Some? ==> d == description.value
    ensures description.None? ==> d == ""
  {
    if description.Some? && description.value != "" then description.value else ""
  }

  /** POST: a body that passes the schema always creates exactly one
      auction (no duplicate check), starting now and ending
      durationMinutes minutes later; anything else writes nothing. */
  method CreateAuction(db: Store, req: AuctionRequest, isEmail: string -> bool, now: int) returns (r: Result<Auction>)
    requires db.Valid()
    modifies db`auctions, db`nextKey
    ensures db.Valid()
    ensures r.Err? <==> !AuctionSchema(req, isEmail)
    ensures r.Err? ==> r.error == InvalidInput && db.auctions == old(db.auctions)
    ensures r.Ok? ==>
      && r.value.title == req.title.value && Utf16Length(r.value.title) >= 3
      && r.value.description == Some(DescriptionOrEmpty(req.description))
      && r.value.buyerId == req.buyerId.value
      && r.value.durationMinutes.None?
      && r.value.minDecrementValue == req.minDecrementValue.value && r.value.minDecrementValue > 0
      && r.value.startTime == now && r.value.createdAt == now
      && r.value.endTime == now + req.durationMinutes.value * MsPerMinute
      && r.value.endTime >= now + MsPerMinute
      && r.value.isActive
      && r.value.invitedSuppliers == req.invitedSuppliers.value
    ensures r.Ok? ==>
      && (forall a :: a in old(db.auctions) ==> a.id != r.value.id)
      && db.auctions == old(db.auctions) + [r.value]
  {
    if !AuctionSchema(req, isEmail) {
      return Err(InvalidInput);
    }
    var endTime := now + req.durationMinutes.value * MsPerMinute;
    var auction := db.InsertAuction(Auction("", req.title.value, Some(DescriptionOrEmpty(req.description)),
                                            req.buyerId.value, None, req.minDecrementValue.value,
                                            now, endTime, true, req.invitedSuppliers.value, now));
    r := Ok(auction);
  }

  /** GET: buyerId is required; the answer is the buyer's auctions, each as
      often as the table holds it, in no promised order. */
  function ListForBuyer(auctions: seq<Auction>, buyerId: Option<string>): (r: Result<seq<Auction>>)
    ensures r.Err? <==> !Truthy(buyerId)
    ensures r.Err? ==> r.error == MissingParameter
    ensures r.Ok? ==> forall a :: a in r.value <==> a in auctions && a.buyerId == buyerId.value
    ensures r.Ok? ==> forall a ::
      multiset(r.value)[a] == (if a.buyerId == buyerId.value then multiset(auctions)[a] else 0)
  {
    if !Truthy(buyerId) then Err(MissingParameter)
    else
      WhereMembers(auctions, BuyerOf, buyerId.value);
      WhereCount(auctions, BuyerOf, buyerId.value);
      Ok(OwnedBy(auctions, buyerId.value))
  }
}
