/** The database the handlers share, as one object whose four tables the
    handlers' writes (`create`, `update`) change in place. Every handler is
    one atomic step on it. */
module Db {
  import opened Model
  import opened Tables
  import opened Ranking

  /** Every key is one the generator has handed out, and no key is used twice. */
  ghost predicate AuctionKeys(auctions: seq<Auction>, nextKey: nat)
  {
    (forall i :: 0 <= i < |auctions| ==> 0 < |auctions[i].id| <= nextKey) && UniqueAuctionIds(auctions)
  }

  ghost predicate BidKeys(bids: seq<Bid>, nextKey: nat)
  {
    (forall i :: 0 <= i < |bids| ==> 0 < |bids[i].id| <= nextKey) && UniqueBidIds(bids)
  }

  ghost predicate InviteKeys(invites: seq<Invite>, nextKey: nat)
  {
    && (forall i :: 0 <= i < |invites| ==> 0 < |invites[i].id| <= nextKey)
    && (forall i, j :: 0 <= i < j < |invites| ==> invites[i].id != invites[j].id)
  }

  /** Keys as above; emails are `@unique` too. */
  ghost predicate UserKeys(users: seq<User>, nextKey: nat)
  {
    && (forall i :: 0 <= i < |users| ==> 0 < |users[i].id| <= nextKey)
    && (forall i, j :: 0 <= i < j < |users| ==> users[i].id != users[j].id)
    && UniqueEmails(users)
  }

  /** Every invite's `auctionId` names an existing auction (a required relation). */
  ghost predicate InvitesResolve(invites: seq<Invite>, auctions: seq<Auction>)
  {
    forall i :: 0 <= i < |invites| ==> FindAuction(auctions, invites[i].auctionId).Some?
  }

  /** A new auction row leaves every invite's auction in place. */
  lemma InvitesResolveAppend(invites: seq<Invite>, auctions: seq<Auction>, row: Auction)
    requires InvitesResolve(invites, auctions)
    ensures InvitesResolve(invites, auctions + [row])
  {
    forall i | 0 <= i < |invites| ensures FindAuction(auctions + [row], invites[i].auctionId).Some? {
      var a := FindAuction(auctions, invites[i].auctionId).value;
      assert a in auctions + [row];
    }
  }

  /** Changing an end time leaves every invite's auction in place. */
  lemma InvitesResolveEndTime(invites: seq<Invite>, auctions: seq<Auction>, id: Id, endTime: int)
    requires InvitesResolve(invites, auctions)
    ensures InvitesResolve(invites, WithEndTime(auctions, id, endTime))
  {
    var r := WithEndTime(auctions, id, endTime);
    forall i | 0 <= i < |invites| ensures FindAuction(r, invites[i].auctionId).Some? {
      var a := FindAuction(auctions, invites[i].auctionId).value;
      var k :| 0 <= k < |auctions| && auctions[k] == a;
      assert r[k] in r;
    }
  }

  /** Handing out one more key keeps every table's keys issued. */
  lemma KeysAdvance(auctions: seq<Auction>, bids: seq<Bid>, invites: seq<Invite>, users: seq<User>, n: nat)
    requires AuctionKeys(auctions, n) && BidKeys(bids, n) && InviteKeys(invites, n) && UserKeys(users, n)
    ensures AuctionKeys(auctions, n + 1) && BidKeys(bids, n + 1) && InviteKeys(invites, n + 1) && UserKeys(users, n + 1)
  {
  }

  /** A row keyed with the n-th key is new to a table whose keys are all
      older, and the table keeps unique keys. */
  lemma BidKeysAppend(bids: seq<Bid>, n: nat, row: Bid)
    requires BidKeys(bids, n) && |row.id| == n + 1
    ensures BidKeys(bids + [row], n + 1)
    ensures forall b :: b in bids ==> b.id != row.id
  {
  }

  lemma AuctionKeysAppend(auctions: seq<Auction>, n: nat, row: Auction)
    requires AuctionKeys(auctions, n) && |row.id| == n + 1
    ensures AuctionKeys(auctions + [row], n + 1)
    ensures forall a :: a in auctions ==> a.id != row.id
  {
  }

  lemma InviteKeysAppend(invites: seq<Invite>, n: nat, row: Invite)
    requires InviteKeys(invites, n) && |row.id| == n + 1
    ensures InviteKeys(invites + [row], n + 1)
    ensures forall i :: i in invites ==> i.id != row.id
  {
  }

  /** A user with a fresh key and an email nobody has keeps keys and emails unique. */
  lemma UserKeysAppend(users: seq<User>, n: nat, row: User)
    requires UserKeys(users, n) && |row.id| == n + 1
    requires forall u :: u in users ==> u.email != row.email
    ensures UserKeys(users + [row], n + 1)
    ensures forall u :: u in users ==> u.id != row.id
  {
    var r := users + [row];
    forall i, j | 0 <= i < j < |r| ensures r[i].email != r[j].email {
      if j == |users| {
        assert r[i] in users;
      }
    }
  }

  /** Rewriting columns other than the key keeps the bid keys valid. */
  lemma BidKeysKept(x: seq<Bid>, y: seq<Bid>, nextKey: nat)
    requires BidKeys(x, nextKey)
    requires |x| == |y|
    requires forall k :: 0 <= k < |x| ==> y[k].id == x[k].id
    ensures BidKeys(y, nextKey)
  {
  }

  /** The auction table after `update({ where: { id }, data: { endTime } })`:
      the row with that id gets the new end time, every other row and field
      stays as it was. */
  function WithEndTime(auctions: seq<Auction>, id: Id, endTime: int): (r: seq<Auction>)
    ensures |r| == |auctions|
    ensures forall k :: 0 <= k < |auctions| && auctions[k].id == id ==> r[k] == auctions[k].(endTime := endTime)
    ensures forall k :: 0 <= k < |auctions| && auctions[k].id != id ==> r[k] == auctions[k]
  {
    seq(|auctions|, k requires 0 <= k < |auctions| =>
      if auctions[k].id == id then auctions[k].(endTime := endTime) else auctions[k])
  }

  /** Under unique ids, the updated row is found under its id with the new
      end time. */
  lemma WithEndTimeFound(auctions: seq<Auction>, k: nat, endTime: int)
    requires UniqueAuctionIds(auctions)
    requires k < |auctions|
    ensures UniqueAuctionIds(WithEndTime(auctions, auctions[k].id, endTime))
    ensures FindAuction(WithEndTime(auctions, auctions[k].id, endTime), auctions[k].id) == Some(auctions[k].(endTime := endTime))
  {
    var r := WithEndTime(auctions, auctions[k].id, endTime);
    FindAuctionAt(r, k);
  }

  class Store {
    var auctions: seq<Auction>
    var bids: seq<Bid>
    var invites: seq<Invite>
    var users: seq<User>
    /** How many keys the key generator has handed out. */
    var nextKey: nat

    /** The table constraints, except that the bids may still await their ranks. */
    ghost predicate WellFormed()
      reads this
    {
      && AuctionKeys(auctions, nextKey)
      && BidKeys(bids, nextKey)
      && InviteKeys(invites, nextKey)
      && UserKeys(users, nextKey)
      && InvitesResolve(invites, auctions)
    }

    /** Between handler steps, every auction's bids are also ranked 1..N by amount. */
    ghost predicate Valid()
      reads this
    {
      WellFormed() && Ranked(bids)
    }

    constructor ()
      ensures Valid()
      ensures auctions == [] && bids == [] && invites == [] && users == []
    {
      auctions, bids, invites, users := [], [], [], [];
      nextKey := 0;
    }

    /** `prisma.auction.create`: the database fills in a fresh id. */
    method InsertAuction(data: Auction) returns (row: Auction)
      requires Valid()
      modifies this`auctions, this`nextKey
      ensures Valid()
      ensures row == data.(id := row.id)
      ensures forall a :: a in old(auctions) ==> a.id != row.id
      ensures auctions == old(auctions) + [row]
    {
      row := data.(id := Key(nextKey));
      KeysAdvance(auctions, bids, invites, users, nextKey);
      AuctionKeysAppend(auctions, nextKey, row);
      InvitesResolveAppend(invites, auctions, row);
      nextKey := nextKey + 1;
      auctions := auctions + [row];
    }

    /** `prisma.bid.create`: a fresh id; the new row is not ranked yet, so
        only the other auctions are still known to be ranked. */
    method InsertBid(data: Bid) returns (row: Bid)
      requires Valid()
      requires data.rank.None?
      modifies this`bids, this`nextKey
      ensures WellFormed() && RankedExcept(bids, data.auctionId)
      ensures row == data.(id := row.id)
      ensures forall b :: b in old(bids) ==> b.id != row.id
      ensures bids == old(bids) + [row]
    {
      row := data.(id := Key(nextKey));
      KeysAdvance(auctions, bids, invites, users, nextKey);
      BidKeysAppend(bids, nextKey, row);
      nextKey := nextKey + 1;
      ghost var before := bids;
      bids := bids + [row];
      forall k | 0 <= k < |bids| && bids[k].auctionId != data.auctionId
        ensures RankedAuction(bids, bids[k].auctionId)
      {
        RankedAuctionFramed(before, bids, bids[k].auctionId);
      }
    }

    /** `prisma.invite.create`. */
    method InsertInvite(data: Invite) returns (row: Invite)
      requires Valid()
      requires FindAuction(auctions, data.auctionId).Some?
      modifies this`invites, this`nextKey
      ensures Valid()
      ensures row == data.(id := row.id)
      ensures forall i :: i in old(invites) ==> i.id != row.id
      ensures invites == old(invites) + [row]
    {
      row := data.(id := Key(nextKey));
      KeysAdvance(auctions, bids, invites, users, nextKey);
      InviteKeysAppend(invites, nextKey, row);
      nextKey := nextKey + 1;
      invites := invites + [row];
    }

    /** `prisma.user.create`; the `@unique` constraint on email is the caller's check. */
    method InsertUser(data: User) returns (row: User)
      requires Valid()
      requires UserByEmail(users, data.email).None?
      modifies this`users, this`nextKey
      ensures Valid()
      ensures row == data.(id := row.id)
      ensures forall u :: u in old(users) ==> u.id != row.id
      ensures users == old(users) + [row]
    {
      row := data.(id := Key(nextKey));
      KeysAdvance(auctions, bids, invites, users, nextKey);
      UserKeysAppend(users, nextKey, row);
      nextKey := nextKey + 1;
      users := users + [row];
    }

    /** `prisma.auction.update({ where: { id }, data: { endTime } })`; None
        when no auction has that id (Prisma throws). */
    method SetEndTime(id: Id, endTime: int) returns (updated: Option<Auction>)
      requires Valid()
      modifies this`auctions
      ensures Valid()
      ensures updated.None? <==> FindAuction(old(auctions), id).None?
      ensures updated.None? ==> auctions == old(auctions)
      ensures updated.Some? ==> updated.value == FindAuction(old(auctions), id).value.(endTime := endTime)
      ensures updated.Some? ==> auctions == WithEndTime(old(auctions), id, endTime)
    {
      var found := FindAuction(auctions, id);
      if found.None? {
        return None;
      }
      InvitesResolveEndTime(invites, auctions, id, endTime);
      auctions := WithEndTime(auctions, id, endTime);
      updated := Some(found.value.(endTime := endTime));
    }

    /** The re-rank loop of both bid handlers: read the auction's rows by
        ascending amount, then write rank i + 1 to the i-th of them. */
    method RecomputeRanks(auctionId: Id) returns (ghost order: seq<Bid>)
      requires WellFormed() && RankedExcept(bids, auctionId)
      modifies this`bids
      ensures Valid()
      ensures IsAscendingSnapshot(order, old(bids), auctionId)
      ensures bids == ApplyRanks(old(bids), order)
      ensures forall k :: 0 <= k < |bids| ==> bids[k] == old(bids)[k].(rank := bids[k].rank)
      ensures forall k :: 0 <= k < |bids| && old(bids)[k].auctionId != auctionId ==> bids[k] == old(bids)[k]
      ensures RankedAuction(bids, auctionId)
    {
      ghost var before := bids;
      var all := AscendingSnapshot(bids, auctionId);
      order := all;
      RerankKeepsRanked(before, all, auctionId);
      WriteRanks(all);
      BidKeysKept(before, bids, nextKey);
    }

    /** The `for` loop: one `update` per row of `order`, rank i + 1 to row i. */
    method WriteRanks(order: seq<Bid>)
      modifies this`bids
      ensures bids == ApplyRanks(old(bids), order)
    {
      ghost var before := bids;
      var i := 0;
      while i < |order|
        invariant 0 <= i <= |order|
        invariant bids == ApplyRanks(before, order[..i])
      {
        ApplyRanksStep(before, order, i);
        bids := WithRank(bids, order[i].id, i + 1);
        i := i + 1;
      }
      assert order[..|order|] == order;
    }
  }
}
