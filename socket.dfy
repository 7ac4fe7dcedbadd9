/** The Socket.IO relay (`src/lib/socket.ts`): a module-level server that
    is created at most once, connections that join per-auction rooms, a
    `new_bid` event that broadcasts the auction's bids in ascending amount
    order, and an `extend_auction` event that moves an auction's end time to
    `extraMinutes` after the current time. Each event is one atomic step; the
    messages sent are appended to an outbox. */
module Socket {
  import opened Model
  import opened Tables
  import opened Ranking
  import opened Db
  import BidRoute

  /** A client connection (`socket.id`). */
  type ConnId = nat

  /** The payloads the relay emits. */
  datatype Event =
    | UpdateBids(bids: seq<Bid>)         // "update_bids"
    | AuctionExtended(auction: Auction)  // "auction_extended"

  /** One `io.to(room).emit(...)`: the room, the connections in it at that
      moment, and the payload. */
  datatype Emission = Emission(room: Id, recipients: set<ConnId>, event: Event)

  class Relay {
    /** The database the handlers query and update. */
    const db: Store
    /** `io !== null`. */
    var io: bool
    /** How many `new Server(...)` calls have run. */
    var serversCreated: nat
    /** The rooms each connection has joined. */
    var rooms: map<ConnId, set<Id>>
    /** Everything emitted so far, oldest first. */
    var outbox: seq<Emission>

    /** The server exists exactly when one was created, never more than one. */
    ghost predicate Valid()
      reads this, db
    {
      db.Valid() && serversCreated == (if io then 1 else 0)
    }

    predicate InRoom(conn: ConnId, room: Id)
      reads this
    {
      conn in rooms && room in rooms[conn]
    }

    /** The connections currently in a room. */
    function Members(room: Id): (m: set<ConnId>)
      reads this
      ensures forall c :: c in m <==> InRoom(c, room)
    {
      set c | c in rooms && room in rooms[c]
    }

    /** Module load: `let io = null`, no rooms, nothing sent. */
    constructor (db: Store)
      requires db.Valid()
      ensures Valid()
      ensures this.db == db && !io && serversCreated == 0 && rooms == map[] && outbox == []
    {
      this.db := db;
      io := false;
      serversCreated := 0;
      rooms := map[];
      outbox := [];
    }

    /** `initializeSocket`: creates the server only when there is none. */
    method Initialize()
      requires Valid()
      modifies this`io, this`serversCreated
      ensures Valid()
      ensures io && serversCreated == 1
      ensures old(io) ==> io == old(io) && serversCreated == old(serversCreated)
    {
      if !io {
        io := true;
        serversCreated := serversCreated + 1;
      }
    }

    /** "join_auction": the connection joins the room named by the auction
        id and no other; every other connection keeps its rooms. */
    method JoinAuction(conn: ConnId, auctionId: Id)
      requires Valid() && io
      modifies this`rooms
      ensures Valid()
      ensures forall c, room :: InRoom(c, room) <==> old(InRoom(c, room)) || (c == conn && room == auctionId)
    {
      var joined := if conn in rooms then rooms[conn] else {};
      rooms := rooms[conn := joined + {auctionId}];
    }

    /** "new_bid": reads the auction's bids by ascending amount and sends
        them to the auction's room; the database is not touched. */
    method NewBid(auctionId: Id) returns (bids: seq<Bid>)
      requires Valid() && io
      modifies this`outbox
      ensures Valid()
      ensures unchanged(db)
      ensures IsAscendingSnapshot(bids, db.bids, auctionId)
      ensures forall b :: b in bids <==> b in db.bids && b.auctionId == auctionId
      ensures outbox == old(outbox) + [Emission(auctionId, Members(auctionId), UpdateBids(bids))]
    {
      bids := AscendingSnapshot(db.bids, auctionId);
      SnapshotMembers(db.bids, bids, auctionId);
      outbox := outbox + [Emission(auctionId, Members(auctionId), UpdateBids(bids))];
    }

    /** "extend_auction": the end time becomes `now + extraMinutes` minutes,
        counted from the current time, not from the old end time. When no
        auction has the id the update throws: nothing changes and nothing is
        sent. Otherwise the updated row is sent to the auction's room. */
    method ExtendAuction(auctionId: Id, extraMinutes: int, now: int) returns (updated: Option<Auction>)
      requires Valid() && io
      modifies db`auctions, this`outbox
      ensures Valid()
      ensures updated.None? <==> FindAuction(old(db.auctions), auctionId).None?
      ensures updated.None? ==> db.auctions == old(db.auctions) && outbox == old(outbox)
      ensures updated.Some? ==>
        && updated.value == FindAuction(old(db.auctions), auctionId).value.(endTime := now + extraMinutes * MsPerMinute)
        && db.auctions == WithEndTime(old(db.auctions), auctionId, now + extraMinutes * MsPerMinute)
        && outbox == old(outbox) + [Emission(auctionId, Members(auctionId), AuctionExtended(updated.value))]
    {
      updated := db.SetEndTime(auctionId, now + extraMinutes * MsPerMinute);
      if updated.Some? {
        outbox := outbox + [Emission(auctionId, Members(auctionId), AuctionExtended(updated.value))];
      }
    }
  }

  /** An "extension" whose new end time falls before the old one shortens
      the auction: a bid at any time between the two is refused as ended by
      the bid route, although it would have passed that check before. */
  lemma ExtensionCanShorten(auctions: seq<Auction>, last: Option<Bid>, k: nat, extraMinutes: int, now: int,
                            body: BidBody, at: int)
    requires UniqueAuctionIds(auctions)
    requires k < |auctions|
    requires BidRoute.HasFields(body) && body.auctionId.value == auctions[k].id
    requires now + extraMinutes * MsPerMinute <= at < auctions[k].endTime
    ensures BidRoute.Decide(auctions, body, last, at) != Reject(AuctionEnded)
    ensures BidRoute.Decide(WithEndTime(auctions, auctions[k].id, now + extraMinutes * MsPerMinute), body, last, at)
      == Reject(AuctionEnded)
  {
    FindAuctionAt(auctions, k);
    WithEndTimeFound(auctions, k, now + extraMinutes * MsPerMinute);
  }
}
