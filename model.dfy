/** Shared vocabulary of the reverse-auction back end: the rows of its four
    tables, the shape of request fields, and the error kinds its handlers
    answer with. */
module Model {

  datatype Option<+T> = None | Some(value: T)

  /** What a request handler answers: a value, or the kind of its error. */
  datatype Result<+T> = Ok(value: T) | Err(error: ErrorKind)

  /** The outcome of a validation chain: the first failing check wins. */
  datatype Verdict = Accept | Reject(error: ErrorKind)

  /** One constructor per distinct error response of the handlers; the HTTP
      status and the message text are not modelled. */
  datatype ErrorKind =
    | MissingFields          // a required body field is falsy
    | MissingParameter       // a required query or body parameter is absent
    | InvalidInput           // the zod schema rejected the body
    | NotFound               // no auction with the given id
    | AuctionEnded           // the auction is over (or inactive)
    | NotLowerThanPrevious   // the amount does not undercut the supplier's last bid
    | DecrementTooSmall      // the undercut is smaller than minDecrementValue
    | InvalidInitialAmount   // a supplier's first bid is not positive
    | NoSuppliers            // invitedSuppliers is not a non-empty array
    | DuplicateTitle         // the buyer already has an auction with this title
    | EmailTaken             // a user with this email already exists

  /** Primary and foreign keys: opaque strings chosen by the database. */
  type Id = string

  /** Instants are milliseconds since the epoch, as `Date.getTime()` gives. */
  const MsPerMinute: int := 60000

  /** The n-th key the store hands out; distinct n give keys of distinct
      length, which is all the model needs of the database's key generator. */
  function Key(n: nat): (k: Id)
    ensures |k| == n + 1
  {
    seq(n + 1, _ => 'k')
  }

  /** JavaScript truthiness of a string field: absent, null and "" are falsy. */
  predicate Truthy(s: Option<string>)
  {
    s.Some? && s.value != ""
  }

  /** JavaScript truthiness of a number field: absent, null and 0 are falsy. */
  predicate TruthyNum(n: Option<int>)
  {
    n.Some? && n.value != 0
  }

  /** JavaScript's `length` of a string: UTF-16 code units, so a character
      outside the Basic Multilingual Plane counts twice. */
  function Utf16Length(s: string): (n: nat)
    ensures |s| <= n <= 2 * |s|
    ensures n == |s| <==> forall i :: 0 <= i < |s| ==> (s[i] as int) < 0x1_0000
  {
    if |s| == 0 then 0
    else
      var last := |s| - 1;
      assert forall i :: 0 <= i < last ==> s[..last][i] == s[i];
      Utf16Length(s[..last]) + (if (s[last] as int) < 0x1_0000 then 1 else 2)
  }

  /** The body of a bid submission: `{ auctionId, supplierId, amount }`;
      None stands for a field that is absent or null. */
  datatype BidBody = BidBody(auctionId: Option<string>, supplierId: Option<string>, amount: Option<int>)

  /** The body of an auction creation request; None stands for a field that
      is absent or null. */
  datatype AuctionRequest = AuctionRequest(
    title: Option<string>,
    description: Option<string>,
    buyerId: Option<string>,
    durationMinutes: Option<int>,
    minDecrementValue: Option<int>,
    invitedSuppliers: Option<seq<string>>)

  /** A row of the Auction table. `durationMinutes` is only written by one
      creation path; `invitedSuppliers` only by the other. */
  datatype Auction = Auction(
    id: Id,
    title: string,
    description: Option<string>,
    buyerId: Id,
    durationMinutes: Option<int>,
    minDecrementValue: int,
    startTime: int,
    endTime: int,
    isActive: bool,
    invitedSuppliers: seq<string>,
    createdAt: int)

  /** A row of the Bid table; `rank` is null until the first re-rank. */
  datatype Bid = Bid(
    id: Id,
    auctionId: Id,
    supplierId: Id,
    amount: int,
    rank: Option<nat>,
    createdAt: int)

  /** A row of the Invite table; `supplierId` is set only when a registered
      user had the invited email at creation time. */
  datatype Invite = Invite(id: Id, auctionId: Id, email: string, supplierId: Option<Id>)

  /** A row of the User table; `password` holds the hash, never the clear text. */
  datatype User = User(id: Id, name: string, email: string, password: string, role: string)
}
