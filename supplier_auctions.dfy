/** The supplier listing (`/api/get-auctions-for-supplier`): the invites
    addressed to an email, each mapped to the auction it belongs to. It only
    reads the tables. */
module SupplierAuctions {
  import opened Model
  import opened Tables
  import opened Db

  function EmailOf(i: Invite): string
  {
    i.email
  }

  /** `prisma.invite.findMany({ where: { email } })`. */
  function InvitesFor(invites: seq<Invite>, email: string): seq<Invite>
  {
    Where(invites, EmailOf, email)
  }

  /** `invites.map(invite => invite.auction)`: the related row of each invite. */
  function AuctionsOf(invites: seq<Invite>, auctions: seq<Auction>): (r: seq<Auction>)
    requires InvitesResolve(invites, auctions)
    ensures |r| == |invites|
    ensures forall i :: 0 <= i < |invites| ==> r[i] in auctions && r[i].id == invites[i].auctionId
  {
    seq(|invites|, i requires 0 <= i < |invites| => FindAuction(auctions, invites[i].auctionId).value)
  }

  /** POST: supplierEmail is required. The answer has one auction per
      matching invite, position by position with the invite query's answer,
      so an auction invited twice is listed twice. The `auctionId` relation guarantees every invite's
      auction exists. */
  function AuctionsForSupplier(invites: seq<Invite>, auctions: seq<Auction>, supplierEmail: Option<string>): (r: Result<seq<Auction>>)
    requires InvitesResolve(invites, auctions)
    ensures r.Err? <==> !Truthy(supplierEmail)
    ensures r.Err? ==> r.error == MissingParameter
    ensures r.Ok? ==> |r.value| == |InvitesFor(invites, supplierEmail.value)|
    ensures r.Ok? ==> forall k :: 0 <= k < |r.value| ==>
      r.value[k] in auctions && r.value[k].id == InvitesFor(invites, supplierEmail.value)[k].auctionId
    ensures r.Ok? ==> forall a :: a in r.value ==>
      a in auctions && exists i :: i in invites && i.email == supplierEmail.value && i.auctionId == a.id
    ensures r.Ok? ==> forall i :: i in invites && i.email == supplierEmail.value ==>
      exists a :: a in r.value && a.id == i.auctionId
  {
    if !Truthy(supplierEmail) then Err(MissingParameter)
    else
      var matched := InvitesFor(invites, supplierEmail.value);
      InvitesForResolve(invites, auctions, supplierEmail.value);
      ListedAuctions(invites, auctions, supplierEmail.value);
      Ok(AuctionsOf(matched, auctions))
  }

  /** The matching invites are invites of the table, so their auctions exist. */
  lemma InvitesForResolve(invites: seq<Invite>, auctions: seq<Auction>, email: string)
    requires InvitesResolve(invites, auctions)
    ensures InvitesResolve(InvitesFor(invites, email), auctions)
  {
    var matched := InvitesFor(invites, email);
    WhereMembers(invites, EmailOf, email);
    forall k | 0 <= k < |matched| ensures FindAuction(auctions, matched[k].auctionId).Some? {
      assert matched[k] in invites;
      var j :| 0 <= j < |invites| && invites[j] == matched[k];
    }
  }

  /** Every listed auction comes from a matching invite, and every matching
      invite's auction is listed. */
  lemma ListedAuctions(invites: seq<Invite>, auctions: seq<Auction>, email: string)
    requires InvitesResolve(invites, auctions)
    requires InvitesResolve(InvitesFor(invites, email), auctions)
    ensures forall a :: a in AuctionsOf(InvitesFor(invites, email), auctions) ==>
      exists i :: i in invites && i.email == email && i.auctionId == a.id
    ensures forall i :: i in invites && i.email == email ==>
      exists a :: a in AuctionsOf(InvitesFor(invites, email), auctions) && a.id == i.auctionId
  {
    var matched := InvitesFor(invites, email);
    var listed := AuctionsOf(matched, auctions);
    WhereMembers(invites, EmailOf, email);
    forall a | a in listed ensures exists i :: i in invites && i.email == email && i.auctionId == a.id {
      var k :| 0 <= k < |listed| && listed[k] == a;
      assert matched[k] in matched;
    }
    forall i | i in invites && i.email == email ensures exists a :: a in listed && a.id == i.auctionId {
      var k :| 0 <= k < |matched| && matched[k] == i;
      assert listed[k] in listed;
    }
  }

  /** An auction to which the supplier was invited twice appears twice. */
  lemma InvitedTwiceListedTwice(invites: seq<Invite>, auctions: seq<Auction>, email: string, i: nat, j: nat)
    requires InvitesResolve(invites, auctions)
    requires email != ""
    requires i < j < |invites|
    requires invites[i].email == email && invites[j].email == email
    requires invites[i].auctionId == invites[j].auctionId
    ensures AuctionsForSupplier(invites, auctions, Some(email)).Ok?
    ensures exists p, q ::
      && 0 <= p < q < |AuctionsForSupplier(invites, auctions, Some(email)).value|
      && AuctionsForSupplier(invites, auctions, Some(email)).value[p].id == invites[i].auctionId
      && AuctionsForSupplier(invites, auctions, Some(email)).value[q].id == invites[i].auctionId
  {
    var r := AuctionsForSupplier(invites, auctions, Some(email));
    var p, q := WhereOrder(invites, EmailOf, email, i, j);
    assert r.value[p].id == invites[i].auctionId;
    assert r.value[q].id == invites[j].auctionId;
  }
}
