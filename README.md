# Reverse-auction back end, modelled in Dafny

This project models the state logic of a reverse-auction platform. Buyers
post an auction with a deadline and a minimum decrement. Invited suppliers
then bid lower and lower, and every bid of an auction carries a rank
(1 = lowest amount).

The database is one object, `Db.Store`, with four tables: auctions, bids,
invites and users. Every HTTP handler and socket event is one atomic step
on it:

- **BidRoute** (`src/app/api/bid/route.ts`) and **BidServer**
  (`src/server/api/bid.ts`) are the two copies of the bid endpoint. Each
  has its own validation chain, a function returning a `Verdict`. Each
  POST is a method that appends the bid and runs the re-rank loop. The
  differences between the two chains are stated as lemmas.
- **AuctionRoute** (`src/app/api/auction/route.ts`) and **AuctionServer**
  (`src/server/api/auction.ts`) are the two copies of auction creation and
  the buyer listing. The route copy adds a duplicate-title check and one
  invite per email, with the registered supplier's id when there is one.
- **Socket** (`src/lib/socket.ts`) is the Socket.IO relay, a class
  `Relay`. It holds a create-once server flag, per-connection rooms and
  an outbox of emissions. Its events are `join_auction`, `new_bid`, which
  broadcasts the auction's bids ascending, and `extend_auction`, which
  sets the end time to now plus the extra minutes.
- **SupplierAuctions** (`src/app/api/get-auctions-for-supplier/route.ts`)
  is the read-only supplier listing: invites by email, mapped to their
  auctions.
- **Auth** (`src/server/api/auth.ts`) is signup: required fields, unique
  email, and a hashed password that the response leaves out.

Shared modules:

- **Model** holds the rows and error kinds.
- **Tables** holds the `findUnique`/`findFirst`/`findMany` queries as
  functions.
- **Sorting** is the database's `orderBy`.
- **Ranking** says what the re-rank loop leaves in the table and proves
  it.
- **Db** is the store, with its invariant `Valid()`. The invariant covers
  fresh and unique keys, unique emails, and every invite naming an
  existing auction. It also says every auction's bids hold ranks 1..N
  that are distinct and follow the amounts.

Instants are integer milliseconds and amounts are integers. A request
field is `Option`: `None` stands for absent or null. JavaScript truthiness
is `Truthy` for strings, where "" is falsy, and `TruthyNum` for numbers,
where 0 is falsy. A string's JavaScript length is its UTF-16 length
(`Model.Utf16Length`).

The ordering of rows with equal sort keys is left open. A ranking query's
answer is specified as "the matching rows, each once, sorted by the key"
(`Ranking.IsAscendingSnapshot`), and the sort in `Sorting` is one such
answer. Likewise the latest-bid query may answer any of a supplier's bids
that share the greatest createdAt (`Tables.IsLatest`). Both validation
chains take that answer as a parameter. `Tables.LatestBid`, which picks
the first such row in table order, is one allowed answer, and
`BidRoute.TiedLatestBids` shows that the choice can change the verdict.

The model follows the code where it departs from what a reverse auction
is usually expected to do:

- Ranking covers every bid row of the auction, not only each supplier's
  latest bid.
- Ties are not broken by createdAt.
- No handler checks that the bidder was invited.
- An extension counts from the current time, so it can move the end time
  earlier (`Socket.ExtensionCanShorten`).

## Model

| member | source | states |
|---|---|---|
| Tables.FindAuction | src/app/api/bid/route.ts:45-52 | `findUnique` by id: a found row is in the table and has the id; nothing is found iff no row has the id |
| Tables.FindAuctionAt | src/app/api/bid/route.ts:45-48 | under unique primary keys the lookup returns exactly the row with that id |
| Tables.LatestBid | src/app/api/bid/route.ts:63-67 | none iff the supplier has no bid in the auction; otherwise a bid of that supplier in that auction whose createdAt is at least every other such bid's |
| Tables.IsLatest | src/app/api/bid/route.ts:64-67 | the answers the latest-bid `findFirst … orderBy createdAt desc` may give: none iff the supplier has no bid in the auction, otherwise any of its bids there with the greatest createdAt |
| BidRoute.GetSupplierBid | src/app/api/bid/route.ts:8-26 | error iff auctionId or supplierId is falsy; otherwise none iff the supplier never bid there, else the supplier's bid there with the greatest createdAt |
| BidRoute.Decide | src/app/api/bid/route.ts:37-96 | each verdict as an if-and-only-if, in the chain's order: MissingFields iff a field is falsy (amount 0 included), whatever the tables hold; NotFound iff the auction is unknown; AuctionEnded iff endTime <= now, whatever the amount; NotLowerThanPrevious iff open with a latest bid and amount >= its amount; DecrementTooSmall iff open, below the latest bid, but above latest - minDecrementValue; InvalidInitialAmount iff open, no previous bid and amount <= 0; Accept otherwise (exactly latest - minDecrementValue accepted) |
| BidRoute.ExactDecrementAccepted | src/app/api/bid/route.ts:77-88 | an amount exactly minDecrementValue below the latest bid is accepted while the auction is open |
| BidRoute.TiedLatestBids | src/app/api/bid/route.ts:63-88 | two bids of one supplier with equal createdAt are both valid answers to the latest-bid query, and 850 is accepted against 1000 but refused as DecrementTooSmall against 900 |
| BidRoute.PlaceBid | src/app/api/bid/route.ts:32-120 | the latest bid it validates against is an answer the query may give; a rejection returns Decide's error and leaves bids unchanged; an acceptance appends exactly one fresh row with the given auctionId, supplierId, amount and time, then leaves the table as the re-rank of an ascending snapshot: other columns unchanged, other auctions untouched, this auction ranked 1..N by amount, store invariant kept |
| BidRoute.AcceptedSeriesFalls | src/app/api/bid/route.ts:69-96 | along one supplier's successively accepted amounts every later amount is strictly lower, and lower by at least (steps × minDecrementValue) when that is non-negative |
| Tables.Where | src/app/api/bid/route.ts:108-111 | `findMany` with a `where` on one column: no more rows than the table |
| Tables.WhereMembers | src/app/api/bid/route.ts:108-111 | a row is in the answer iff it is in the table and its column holds the value |
| Tables.WhereCount | src/app/api/auction/route.ts:21-28 | a matching row occurs in the answer as often as in the table, any other row not at all |
| Tables.WhereOrder | src/server/api/auction.ts:79-82 | in the model's answer two matching rows keep their relative table order (a property of the model's filter, not a promise of the database) |
| Tables.InAuction | src/app/api/bid/route.ts:108-110 | the `where: { auctionId }` filter on the bid table |
| Sorting.SortBy | src/app/api/bid/route.ts:108-111 | `orderBy` ascending: the result is sorted by the key and is a permutation of the input |
| Ranking.IsAscendingSnapshot | src/app/api/bid/route.ts:108-111 | the answers `findMany({ where: { auctionId }, orderBy: { amount: "asc" } })` may give: the auction's rows with their multiplicities, sorted by amount, ties in any order |
| Ranking.AscendingSnapshot | src/app/api/bid/route.ts:108-111 | the answer holds the auction's rows, each as often as in the table, in ascending amount order |
| Ranking.SnapshotMembers | src/app/api/bid/route.ts:108-111 | a row is in an ascending answer iff it is in the table and belongs to the auction |
| Ranking.ApplyRanks | src/app/api/bid/route.ts:113-118 | the table after the loop: each row is rewritten as the last write of the answer to its id left it, and the table keeps its length |
| Ranking.WithRank | src/app/api/bid/route.ts:114-117 | `update` of one rank: the row with the id gets the rank, every other row is unchanged |
| Ranking.ApplyRanksStep | src/app/api/bid/route.ts:113-118 | one more loop iteration is one more single-row rank update |
| Db.Store.WriteRanks | src/app/api/bid/route.ts:113-118 | after the loop the table is the old table with the ranks of the answer written (last write per id wins) |
| Db.Store.RecomputeRanks | src/app/api/bid/route.ts:107-118 | the table becomes the re-rank of an ascending snapshot; only rank columns change, other auctions are untouched, and every auction is again ranked |
| Ranking.RankOfRow | src/app/api/bid/route.ts:113-118 | each row of the auction ends with rank = 1 + its position in the ascending answer |
| Ranking.RerankFrame | src/app/api/bid/route.ts:113-118 | re-ranking changes only rank columns, and no row of another auction |
| Ranking.RerankInRange | src/app/api/bid/route.ts:113-118 | after re-ranking every row of the auction holds a rank in 1..N, N its number of rows |
| Ranking.RerankDistinct | src/app/api/bid/route.ts:113-118 | after re-ranking no two rows of the auction share a rank |
| Ranking.RankHeld | src/app/api/bid/route.ts:113-118 | after re-ranking each rank p in 1..N is held by a row of the auction |
| Ranking.RerankCovered | src/app/api/bid/route.ts:113-118 | after re-ranking no rank in 1..N is missing |
| Ranking.RerankContiguous | src/app/api/bid/route.ts:108-118 | after re-ranking the auction's ranks are exactly 1..N, no gap, no duplicate |
| Ranking.RerankOrdered | src/app/api/bid/route.ts:108-118 | after re-ranking a smaller rank never holds a higher amount |
| Ranking.RerankKeepsRanked | src/app/api/bid/route.ts:108-118 | re-ranking one auction leaves every auction ranked and changes only that auction's ranks |
| Ranking.RankOneIsLowest | src/app/api/bid/route.ts:108-118 | in a ranked auction the row with rank 1 has the minimum amount |
| Db.Store.InsertBid | src/app/api/bid/route.ts:99-105 | `bid.create`: exactly one row appended, with a fresh id and the given columns; other auctions stay ranked |
| BidServer.BidSchema | src/server/api/bid.ts:7-11 | `bidSchema`: both ids are strings (the empty string allowed) and the amount is a positive number |
| BidServer.SchemaVersusFields | src/server/api/bid.ts:7-24 | a body that passes the schema has all fields in the route copy's sense iff neither id is empty |
| BidServer.Decide | src/server/api/bid.ts:17-57 | each verdict as an if-and-only-if, in the chain's order: InvalidInput iff the schema fails; NotFound iff the auction is unknown; AuctionEnded iff inactive or now > endTime; DecrementTooSmall iff live with a latest bid and amount >= last - minDecrementValue (equality refused); Accept otherwise |
| BidServer.PlaceBid | src/server/api/bid.ts:14-92 | the latest bid it validates against is an answer the query may give; a rejection returns this copy's error and leaves bids unchanged; an acceptance appends exactly one fresh row and re-ranks the auction 1..N by amount, other auctions untouched |
| BidServer.FirstOf | src/server/api/bid.ts:116 | `find` on supplierId: none iff the supplier has no row in the list; otherwise the earliest row of that supplier in the list, which on an ascending list has the supplier's lowest amount |
| BidServer.GetBids | src/server/api/bid.ts:95-131 | error iff auctionId is falsy; without supplierId all of the auction's rows in ascending amount order; with it the supplier's lowest-amount bid (none iff no bid) and totalBidders = the number of bid rows of the auction |
| BidServer.DeadlineDiffers | src/server/api/bid.ts:38-41 | at now == endTime the route copy answers AuctionEnded and this copy does not |
| BidServer.ExactDecrementDiffers | src/server/api/bid.ts:49-57 | an amount exactly minDecrementValue below the latest bid is accepted by the route copy and rejected as DecrementTooSmall by this copy |
| BidServer.ServerAcceptIsRouteAccept | src/server/api/bid.ts:17-57 | with non-empty ids, a non-negative decrement and the deadline ahead, whatever this copy accepts the route copy accepts too |
| Tables.OwnedBy | src/app/api/auction/route.ts:21-22 | the `where: { buyerId }` filter on the auction table |
| AuctionRoute.ListForBuyer | src/app/api/auction/route.ts:8-38 | error iff buyerId is falsy or "current"; otherwise exactly the buyer's auctions, each as often as in the table, by descending createdAt |
| Tables.FindTitled | src/app/api/auction/route.ts:76-78 | a found auction has the title and buyer; none iff the buyer has no auction with that title |
| AuctionRoute.CheckCreate | src/app/api/auction/route.ts:57-85 | MissingFields iff title, buyerId, durationMinutes or minDecrementValue is falsy; then NoSuppliers iff invitedSuppliers is not a non-empty list; then DuplicateTitle iff the buyer already has that title; Accept otherwise |
| AuctionRoute.SupplierIdFor | src/app/api/auction/route.ts:103-113 | a supplierId is a non-empty id of a user with that email; with unique emails there is one iff such a user exists |
| AuctionRoute.SupplierIdIsUser | src/app/api/auction/route.ts:103-113 | with unique emails the invite gets exactly the registered user's id |
| Db.Store.InsertAuction | src/app/api/auction/route.ts:88-98 | `auction.create`: exactly one row appended, with a fresh id and the given columns |
| Db.Store.InsertInvite | src/app/api/auction/route.ts:115 | `invite.create`: exactly one row appended, with a fresh id, naming an existing auction |
| AuctionRoute.InviteAll | src/app/api/auction/route.ts:101-117 | one new invite per email, in list order, each carrying the auction's id, the email and the email's supplierId |
| AuctionRoute.CreateAuction | src/app/api/auction/route.ts:44-125 | a rejection returns CheckCreate's error and creates no auction and no invite; success appends one auction with startTime = now and endTime = now + durationMinutes × 60000, then its invites |
| Model.Utf16Length | src/server/api/auction.ts:8 | JavaScript string length: between the number of characters and twice it, and equal to it iff no character lies outside the Basic Multilingual Plane |
| AuctionServer.AuctionSchema | src/server/api/auction.ts:7-14 | `auctionSchema`: a title of at least 3 UTF-16 code units, a buyerId string, durationMinutes >= 1, minDecrementValue > 0, and a list of strings that are all emails |
| AuctionServer.EmptyInviteListAllowed | src/server/api/auction.ts:13 | an empty email list passes the schema |
| AuctionServer.AstralTitleLength | src/server/api/auction.ts:8 | a title of one emoji and one letter is two characters and three code units, so it is long enough |
| AuctionServer.DescriptionOrEmpty | src/server/api/auction.ts:44 | an absent description becomes "", a present one is kept |
| AuctionServer.CreateAuction | src/server/api/auction.ts:17-64 | error iff the schema fails, with no change; otherwise always one new auction (no duplicate check) with startTime = now, endTime = now + durationMinutes × 60000, the description default and the email list stored on the row |
| AuctionServer.ListForBuyer | src/server/api/auction.ts:67-92 | error iff buyerId is falsy; otherwise exactly the auctions with that buyerId, each as often as in the table |
| Socket.Relay.constructor | src/lib/socket.ts:8 | at module load there is no server, no room and nothing sent |
| Socket.Relay.Initialize | src/lib/socket.ts:10-17 | afterwards a server exists, and a server is created only when none existed: never more than one |
| Socket.Relay.Members | src/lib/socket.ts:39 | the recipients of `io.to(room)` are exactly the connections that joined the room |
| Socket.Relay.JoinAuction | src/lib/socket.ts:23-26 | the connection is in the auction's room afterwards and no other membership changes |
| Socket.Relay.NewBid | src/lib/socket.ts:29-41 | the store is untouched; exactly the auction's bids, ascending by amount, are sent to the room's members |
| Db.WithEndTime | src/lib/socket.ts:46-49 | the row with the id gets the new end time; no other row and no other field changes |
| Db.WithEndTimeFound | src/lib/socket.ts:46-49 | after the update the auction is found under its id with the new end time, ids still unique |
| Db.Store.SetEndTime | src/lib/socket.ts:46-49 | `auction.update`: an unknown id changes nothing; otherwise the table becomes WithEndTime and the updated row is returned |
| Socket.Relay.ExtendAuction | src/lib/socket.ts:44-53 | endTime becomes now + extraMinutes × 60000 for that auction only, and the updated row is sent to its room; an unknown id changes nothing and sends nothing |
| Socket.ExtensionCanShorten | src/lib/socket.ts:44-49 | when now + extraMinutes × 60000 is before the old end time, a bid in between passed the deadline check before and is refused as ended after |
| SupplierAuctions.InvitesFor | src/app/api/get-auctions-for-supplier/route.ts:21-22 | the `where: { email }` filter on the invite table |
| SupplierAuctions.AuctionsOf | src/app/api/get-auctions-for-supplier/route.ts:33 | one auction per invite, position by position, the auction the invite names |
| SupplierAuctions.AuctionsForSupplier | src/app/api/get-auctions-for-supplier/route.ts:8-35 | error iff supplierEmail is falsy; otherwise one auction per matching invite, position by position with the invite query's answer, every listed auction invited to that email and every such invite's auction listed |
| SupplierAuctions.InvitedTwiceListedTwice | src/app/api/get-auctions-for-supplier/route.ts:33 | an auction invited twice to the email appears at two positions of the answer |
| Tables.UserByEmail | src/server/api/auth.ts:15 | a found user has the email; none iff no user has it |
| Tables.UserByEmailUnique | src/server/api/auth.ts:15-18 | under unique emails the lookup finds exactly the user with that email |
| Auth.CheckSignup | src/server/api/auth.ts:11-18 | MissingFields iff a field is falsy; EmailTaken iff the fields are present and a user has the email; Accept iff neither |
| Db.Store.InsertUser | src/server/api/auth.ts:22-29 | `user.create` for an unused email: one row appended with a fresh id; emails stay unique |
| Auth.Signup | src/server/api/auth.ts:7-34 | a rejection returns CheckSignup's error with no insert; success appends exactly one user with the given name, email, role and hash(password), which the email then finds, and answers id, email and role only |
| Auth.SecondSignupRefused | src/server/api/auth.ts:15-18 | a signup with an email already in the table is refused as EmailTaken whatever its other fields |

## Left out

- HTTP: status codes, message texts (including the amounts formatted into them), `req.json()` and `NextResponse`. Each error response is an `ErrorKind`.
- JSON values of the wrong type (a number where a string is expected, and the like) and `Number(amount)` coercion: fields are typed, and an absent or null field is `None`.
- Floating-point numbers: amounts, decrements and minute counts are integers, instants are integer milliseconds.
- The `catch` branches: a database error (a foreign key to a missing user for buyerId or supplierId, a lost connection) aborts the handler with a server error. The model checks no foreign key to the user table and lets such writes succeed. The one throw it keeps is `auction.update` on an unknown id in `extend_auction`, modelled as no change and no emission.
- The `include` joins (bids, invites, buyer, supplier): answers hold the rows of the queried table only.
- Database defaults are taken as isActive = true, createdAt = the request time, rank = null, invitedSuppliers = [] and durationMinutes = null when not written. The Prisma schema is not part of this model.
- Tie order of `orderBy`: contracts say "sorted and a permutation", and no tie-break is fixed.
- Concurrency: each handler is one atomic step. The race between two bids validated against the same latest bid, interleaved rank updates and `Promise.all`'s concurrent invite creation are not modelled. Invites are created one after another in list order.
- bcrypt: `hash` is a function parameter, so salt randomness is not modelled. `compare` and `src/lib/auth.ts` are not part of this model.
- zod: email syntax is a predicate parameter `isEmail`. `optional()` rejects an explicit null while the model's `None` stands for absent and null alike.
- Socket.IO transport: CORS, the `/api/socket` path, `res.end()`, logging, the `disconnect` handler (it only logs), and delivery to clients. The `outbox` records what is emitted to whom.
- Socket.Relay.JoinAuction, Socket.Relay.NewBid, Socket.Relay.ExtendAuction: require a server to exist, because the handlers are only registered when it is created.
- SupplierAuctions.AuctionsForSupplier: requires every invite to name an existing auction, which the store keeps as an invariant (the invite's required relation to its auction).
- AuctionServer.ListForBuyer: its contract states membership and multiplicity and leaves the order open, as the query (no `orderBy`) does.
- Tables.Where, Tables.WhereOrder: a `findMany` without `orderBy` is modelled as answering in table order, while the database promises no order (and `extend_auction` rewrites auction rows in place). The supplier listing's invite order, and the positions in `SupplierAuctions.InvitedTwiceListedTwice`, rest on the same choice; its multiplicities do not.
- BidRoute.AcceptedSeriesFalls: the falling-amounts property is proved over a series of accepted steps, not as an invariant of the stored bid table. Rows with equal createdAt make "latest bid" ambiguous, and the other bid copy accepts a higher amount when an auction created by the route copy has a negative minDecrementValue.
- UI pages, components, configuration and the socket initialisation route are not part of this model.
