/** The auction endpoint of the App Router (`/api/auction`): GET lists a
    buyer's auctions newest first; POST checks the body, rejects a title the
    buyer already used, creates the auction and one invite per email. */
module AuctionRoute {
  import opened Model
  import opened Sorting
  import opened Tables
  import opened Db

  /** Sort key of `orderBy: { createdAt: "desc" }`. */
  function NewestFirst(a: Auction): int
  {
    -a.createdAt
  }

  /** GET: a missing buyerId, or the placeholder "current", is refused;
      otherwise the buyer's auctions, each once, by descending createdAt. */
  function ListForBuyer(auctions: seq<Auction>, buyerId: Option<string>): (r: Result<seq<Auction>>)
    ensures r.Err? <==> !Truthy(buyerId) || buyerId.value == "current"
    ensures r.Err? ==> r.error == MissingParameter
    ensures r.Ok? ==> forall a :: a in r.value <==> a in auctions && a.buyerId == buyerId.value
    ensures r.Ok? ==> forall a ::
      multiset(r.value)[a] == (if a.buyerId == buyerId.value then multiset(auctions)[a] else 0)
    ensures r.Ok? ==> forall i, j :: 0 <= i < j < |r.value| ==> r.value[i].createdAt >= r.value[j].createdAt
  {
    if !Truthy(buyerId) || buyerId.value == "current" then Err(MissingParameter)
    else
      var owned := OwnedBy(auctions, buyerId.value);
      var sorted := SortBy(owned, NewestFirst);
      WhereMembers(auctions, BuyerOf, buyerId.value);
      WhereCount(auctions, BuyerOf, buyerId.value);
      assert forall a :: a in sorted <==> a in multiset(owned);
      assert forall i, j :: 0 <= i < j < |sorted| ==> NewestFirst(sorted[i]) <= NewestFirst(sorted[j]);
      Ok(sorted)
  }

  /** The field checks, in their order: required fields (falsy values
      count as missing), then a non-empty list of emails, then the
      (title, buyer) duplicate check. */
  function CheckCreate(auctions: seq<Auction>, req: AuctionRequest): (v: Verdict)
    ensures (!Truthy(req.title) || !Truthy(req.buyerId) || !TruthyNum(req.durationMinutes) ||
             !TruthyNum(req.minDecrementValue)) <==> v == Reject(MissingFields)
    ensures v == Reject(NoSuppliers) <==>
      && Truthy(req.title) && Truthy(req.buyerId)
      && TruthyNum(req.durationMinutes) && TruthyNum(req.minDecrementValue)
      && (req.invitedSuppliers.None? || |req.invitedSuppliers.value| == 0)
    ensures v == Reject(DuplicateTitle) <==>
      && Truthy(req.title) && Truthy(req.buyerId)
      && TruthyNum(req.durationMinutes) && TruthyNum(req.minDecrementValue)
      && req.invitedSuppliers.Some? && |req.invitedSuppliers.value| > 0
      && exists a :: a in auctions && a.title == req.title.value && a.buyerId == req.buyerId.value
    ensures v == Accept <==>
      && Truthy(req.title) && Truthy(req.buyerId)
      && TruthyNum(req.durationMinutes) && TruthyNum(req.minDecrementValue)
      && req.invitedSuppliers.Some? && |req.invitedSuppliers.value| > 0
      && forall a :: a in auctions ==> !(a.title == req.title.value && a.buyerId == req.buyerId.value)
  {
    if !Truthy(req.title) || !Truthy(req.buyerId) || !TruthyNum(req.durationMinutes) || !TruthyNum(req.minDecrementValue) then
      Reject(MissingFields)
    else if req.invitedSuppliers.None? || |req.invitedSuppliers.value| == 0 then
      Reject(NoSuppliers)
    else if FindTitled(auctions, req.title.value, req.buyerId.value).Some? then
      Reject(DuplicateTitle)
    else
      Accept
  }

  /** The supplierId an invite gets: the id of the user registered with that
      email, when there is one and its id is truthy. */
  function SupplierIdFor(users: seq<User>, email: string): (r: Option<Id>)
    ensures r.Some? ==> r.value != "" && exists u :: u in users && u.email == email && u.id == r.value
    ensures UniqueEmails(users) ==>
      (r.Some? <==> exists u :: u in users && u.email == email && u.id != "")
  {
    match UserByEmail(users, email)
    case Some(u) => if u.id != "" then Some(u.id) else None
    case None => None
  }

  /** Under unique emails, the supplierId is that of the one registered user. */
  lemma SupplierIdIsUser(users: seq<User>, k: nat)
    requires UniqueEmails(users)
    requires k < |users| && users[k].id != ""
    ensures SupplierIdFor(users, users[k].email) == Some(users[k].id)
  {
    UserByEmailUnique(users, k);
  }

  /** What a successful POST answers: the auction and its invites. */
  datatype Created = Created(auction: Auction, invites: seq<Invite>)

  /** POST /api/auction. On a rejection nothing is written. On success one
      auction is inserted with startTime = now and endTime = now +
      durationMinutes minutes, and then one invite per email, in list order,
      each naming the new auction and carrying the registered supplier's id
      when the email has one. */
  method CreateAuction(db: Store, req: AuctionRequest, now: int) returns (r: Result<Created>)
    requires db.Valid()
    modifies db`auctions, db`invites, db`nextKey
    ensures db.Valid()
    ensures r.Err? <==> CheckCreate(old(db.auctions), req).Reject?
    ensures r.Err? ==> CheckCreate(old(db.auctions), req) == Reject(r.error)
    ensures r.Err? ==> db.auctions == old(db.auctions) && db.invites == old(db.invites)
    ensures r.Ok? ==>
      var a := r.value.auction;
      && a == Auction(a.id, req.title.value, req.description, req.buyerId.value, req.durationMinutes,
                      req.minDecrementValue.value, now, now + req.durationMinutes.value * MsPerMinute, true, [], now)
      && (forall b :: b in old(db.auctions) ==> b.id != a.id)
      && db.auctions == old(db.auctions) + [a]
    ensures r.Ok? ==>
      var emails := req.invitedSuppliers.value;
      && |r.value.invites| == |emails|
      && db.invites == old(db.invites) + r.value.invites
      && forall i :: 0 <= i < |emails| ==>
           r.value.invites[i] == Invite(r.value.invites[i].id, r.value.auction.id, emails[i], SupplierIdFor(db.users, emails[i]))
  {
    var verdict := CheckCreate(db.auctions, req);
    if verdict.Reject? {
      return Err(verdict.error);
    }
    var startTime := now;
    var endTime := startTime + req.durationMinutes.value * MsPerMinute;
    var auction := db.InsertAuction(Auction("", req.title.value, req.description, req.buyerId.value, req.durationMinutes,
                                            req.minDecrementValue.value, startTime, endTime, true, [], now));
    var created := InviteAll(db, auction, req.invitedSuppliers.value);
    r := Ok(Created(auction, created));
  }

  /** The invite fan-out: one `invite.create` per email, in list order. */
  method InviteAll(db: Store, auction: Auction, emails: seq<string>) returns (created: seq<Invite>)
    requires db.Valid()
    requires auction in db.auctions
    modifies db`invites, db`nextKey
    ensures db.Valid()
    ensures |created| == |emails|
    ensures db.invites == old(db.invites) + created
    ensures forall j :: 0 <= j < |emails| ==>
      created[j] == Invite(created[j].id, auction.id, emails[j], SupplierIdFor(db.users, emails[j]))
  {
    created := [];
    var users := db.users;
    assert FindAuction(db.auctions, auction.id).Some?;
    var i := 0;
    while i < |emails|
      invariant 0 <= i <= |emails|
      invariant db.Valid()
      invariant db.users == users && db.auctions == old(db.auctions)
      invariant |created| == i
      invariant db.invites == old(db.invites) + created
      invariant forall j :: 0 <= j < i ==>
        created[j] == Invite(created[j].id, auction.id, emails[j], SupplierIdFor(users, emails[j]))
    {
      var invite := db.InsertInvite(Invite("", auction.id, emails[i], SupplierIdFor(users, emails[i])));
      assert old(db.invites) + (created + [invite]) == old(db.invites) + created + [invite];
      created := created + [invite];
      i := i + 1;
    }
  }
}
