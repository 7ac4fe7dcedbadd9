/** Rank recomputation, as both bid handlers do it after an accepted bid:
    every bid row of the auction (every historical bid, not only each
    supplier's latest) is read back in ascending amount order and row i of
    that answer gets rank i + 1, one `update` per row. This module states
    what such a pass leaves in the table and proves that the ranks of the
    auction are then 1..N, distinct, and ordered by amount. */
module Ranking {
  import opened Model
  import opened Sorting
  import opened Tables

  function Amount(b: Bid): int
  {
    b.amount
  }

  /** `order` is an answer the database may give to
      `findMany({ where: { auctionId }, orderBy: { amount: "asc" } })`: the
      auction's rows, each once, by ascending amount, ties in any order. */
  ghost predicate IsAscendingSnapshot(order: seq<Bid>, bids: seq<Bid>, auctionId: Id)
  {
    multiset(order) == multiset(InAuction(bids, auctionId)) && SortedBy(order, Amount)
  }

  /** One answer to that query. */
  function AscendingSnapshot(bids: seq<Bid>, auctionId: Id): (order: seq<Bid>)
    ensures IsAscendingSnapshot(order, bids, auctionId)
    ensures |order| == |InAuction(bids, auctionId)|
  {
    SortBy(InAuction(bids, auctionId), Amount)
  }

  /** The rows of an ascending answer are exactly the auction's rows. */
  lemma SnapshotMembers(bids: seq<Bid>, order: seq<Bid>, auctionId: Id)
    requires IsAscendingSnapshot(order, bids, auctionId)
    ensures forall b :: b in order <==> b in bids && b.auctionId == auctionId
  {
    InAuctionMembers(bids, auctionId);
    forall b ensures b in order <==> b in bids && b.auctionId == auctionId {
      assert b in order <==> b in multiset(order);
      assert b in InAuction(bids, auctionId) <==> b in multiset(InAuction(bids, auctionId));
    }
  }

  /** The last position of `order` that holds a row with this id. */
  function LastIndex(order: seq<Bid>, id: Id): (r: Option<nat>)
    ensures r.Some? ==> r.value < |order| && order[r.value].id == id
    ensures r.Some? ==> forall j :: r.value < j < |order| ==> order[j].id != id
    ensures r.None? ==> forall j :: 0 <= j < |order| ==> order[j].id != id
  {
    if |order| == 0 then None
    else if order[|order| - 1].id == id then Some(|order| - 1)
    else LastIndex(order[..|order| - 1], id)
  }

  /** `prisma.bid.update({ where: { id }, data: { rank } })`. */
  function WithRank(bids: seq<Bid>, id: Id, rank: nat): (r: seq<Bid>)
    ensures |r| == |bids|
    ensures forall k :: 0 <= k < |bids| && bids[k].id == id ==> r[k] == bids[k].(rank := Some(rank))
    ensures forall k :: 0 <= k < |bids| && bids[k].id != id ==> r[k] == bids[k]
  {
    seq(|bids|, k requires 0 <= k < |bids| => if bids[k].id == id then bids[k].(rank := Some(rank)) else bids[k])
  }

  /** A row after the loop has written the ranks of `order`: the last write
      to its id wins. */
  function Reranked(row: Bid, order: seq<Bid>): Bid
  {
    match LastIndex(order, row.id)
    case Some(j) => row.(rank := Some(j + 1))
    case None => row
  }

  /** The table after the loop has written the ranks of `order`. */
  function ApplyRanks(bids: seq<Bid>, order: seq<Bid>): (r: seq<Bid>)
    ensures |r| == |bids|
    ensures forall k :: 0 <= k < |bids| ==> r[k] == Reranked(bids[k], order)
  {
    seq(|bids|, k requires 0 <= k < |bids| => Reranked(bids[k], order))
  }

  /** One more iteration of the loop is one more `update`. */
  lemma ApplyRanksStep(bids: seq<Bid>, order: seq<Bid>, i: nat)
    requires i < |order|
    ensures ApplyRanks(bids, order[..i + 1]) == WithRank(ApplyRanks(bids, order[..i]), order[i].id, i + 1)
  {
    assert order[..i + 1][..i] == order[..i];
  }

  /** Some row of the auction holds rank p. */
  ghost predicate HasRank(bids: seq<Bid>, auctionId: Id, p: nat)
  {
    exists k :: 0 <= k < |bids| && bids[k].auctionId == auctionId && bids[k].rank == Some(p)
  }

  /** Each row of the auction holds a rank in 1..n. */
  ghost predicate RanksInRange(bids: seq<Bid>, auctionId: Id, n: nat)
  {
    forall k :: 0 <= k < |bids| && bids[k].auctionId == auctionId ==>
      bids[k].rank.Some? && 1 <= bids[k].rank.value <= n
  }

  /** No two rows of the auction hold the same rank. */
  ghost predicate RanksDistinct(bids: seq<Bid>, auctionId: Id)
  {
    forall k1, k2 ::
      (0 <= k1 < |bids| && 0 <= k2 < |bids| && k1 != k2 &&
       bids[k1].auctionId == auctionId && bids[k2].auctionId == auctionId) ==>
      bids[k1].rank != bids[k2].rank
  }

  /** Every rank in 1..n is held by some row of the auction. */
  ghost predicate RanksCovered(bids: seq<Bid>, auctionId: Id, n: nat)
  {
    forall p :: 1 <= p <= n ==> HasRank(bids, auctionId, p)
  }

  /** The N rows of the auction hold exactly the ranks 1..N: each row a rank
      in 1..N, no rank twice, no rank missing. */
  ghost predicate RanksContiguous(bids: seq<Bid>, auctionId: Id)
  {
    var n := |InAuction(bids, auctionId)|;
    RanksInRange(bids, auctionId, n) && RanksDistinct(bids, auctionId) && RanksCovered(bids, auctionId, n)
  }

  /** A better (smaller) rank never holds a higher amount. */
  ghost predicate RankOrdered(bids: seq<Bid>, auctionId: Id)
  {
    forall k1, k2 ::
      (0 <= k1 < |bids| && 0 <= k2 < |bids| &&
       bids[k1].auctionId == auctionId && bids[k2].auctionId == auctionId &&
       bids[k1].rank.Some? && bids[k2].rank.Some? && bids[k1].rank.value < bids[k2].rank.value) ==>
      bids[k1].amount <= bids[k2].amount
  }

  ghost predicate RankedAuction(bids: seq<Bid>, auctionId: Id)
  {
    RanksContiguous(bids, auctionId) && RankOrdered(bids, auctionId)
  }

  /** Every auction that has bids is ranked. */
  ghost predicate Ranked(bids: seq<Bid>)
  {
    forall k :: 0 <= k < |bids| ==> RankedAuction(bids, bids[k].auctionId)
  }

  /** Every auction other than `auctionId` is ranked. */
  ghost predicate RankedExcept(bids: seq<Bid>, auctionId: Id)
  {
    forall k :: 0 <= k < |bids| && bids[k].auctionId != auctionId ==> RankedAuction(bids, bids[k].auctionId)
  }

  /** Rank 1 goes to a lowest bid of the auction. */
  lemma RankOneIsLowest(bids: seq<Bid>, auctionId: Id, k1: nat, k2: nat)
    requires RankedAuction(bids, auctionId)
    requires k1 < |bids| && k2 < |bids|
    requires bids[k1].auctionId == auctionId && bids[k2].auctionId == auctionId
    requires bids[k1].rank == Some(1)
    ensures bids[k1].amount <= bids[k2].amount
  {
    if k1 != k2 {
      assert bids[k2].rank != Some(1);
    }
  }

  lemma TwiceCounted<T>(s: seq<T>, i: nat, j: nat)
    requires i < j < |s| && s[i] == s[j]
    ensures multiset(s)[s[i]] >= 2
  {
    assert s == s[..j] + s[j..];
    assert s[i] in s[..j];
    assert s[j..][0] == s[j];
  }

  lemma {:induction false} UniqueAtMostOnce(s: seq<Bid>, x: Bid)
    requires UniqueBidIds(s)
    ensures multiset(s)[x] <= 1
  {
    if |s| > 0 {
      var n := |s| - 1;
      assert s == s[..n] + [s[n]];
      UniqueAtMostOnce(s[..n], x);
      if x == s[n] {
        forall k | 0 <= k < n ensures s[..n][k] != x {
          assert s[k].id != s[n].id;
        }
        assert x !in s[..n];
      }
    }
  }

  /** Reordering rows keeps their ids unique. */
  lemma UniquePermutation(a: seq<Bid>, b: seq<Bid>)
    requires multiset(a) == multiset(b)
    requires UniqueBidIds(a)
    ensures UniqueBidIds(b)
  {
    forall i, j | 0 <= i < j < |b| ensures b[i].id != b[j].id {
      if b[i] == b[j] {
        TwiceCounted(b, i, j);
        UniqueAtMostOnce(a, b[i]);
        assert false;
      } else {
        assert b[i] in multiset(a) && b[j] in multiset(a);
        var p :| 0 <= p < |a| && a[p] == b[i];
        var q :| 0 <= q < |a| && a[q] == b[j];
        assert p != q;
      }
    }
  }

  /** Where a row of the auction sits in `order`, and the rank it gets. */
  lemma RankOfRow(bids: seq<Bid>, order: seq<Bid>, auctionId: Id, k: nat) returns (j: nat)
    requires UniqueBidIds(bids)
    requires IsAscendingSnapshot(order, bids, auctionId)
    requires UniqueBidIds(order)
    requires k < |bids| && bids[k].auctionId == auctionId
    ensures j < |order| && order[j] == bids[k]
    ensures ApplyRanks(bids, order)[k] == bids[k].(rank := Some(j + 1))
  {
    InAuctionMembers(bids, auctionId);
    assert bids[k] in InAuction(bids, auctionId);
    assert bids[k] in multiset(order);
    j :| 0 <= j < |order| && order[j] == bids[k];
    var last := LastIndex(order, bids[k].id);
    assert order[j].id == bids[k].id;
    assert last.Some? && j <= last.value;
    assert order[last.value].id == order[j].id;
    assert last.value == j;
    assert Reranked(bids[k], order) == bids[k].(rank := Some(j + 1));
  }

  /** The ids in `order` are unique and it holds as many rows as the auction. */
  lemma SnapshotShape(bids: seq<Bid>, order: seq<Bid>, auctionId: Id)
    requires UniqueBidIds(bids)
    requires IsAscendingSnapshot(order, bids, auctionId)
    ensures UniqueBidIds(order)
    ensures |order| == |InAuction(bids, auctionId)|
  {
    InAuctionUnique(bids, auctionId);
    UniquePermutation(InAuction(bids, auctionId), order);
    assert |multiset(order)| == |multiset(InAuction(bids, auctionId))|;
  }

  /** The re-rank pass changes ranks only, and only in its own auction. */
  lemma RerankFrame(bids: seq<Bid>, order: seq<Bid>, auctionId: Id)
    requires UniqueBidIds(bids)
    requires IsAscendingSnapshot(order, bids, auctionId)
    ensures forall k :: 0 <= k < |bids| ==>
      ApplyRanks(bids, order)[k] == bids[k].(rank := ApplyRanks(bids, order)[k].rank)
    ensures forall k :: 0 <= k < |bids| && bids[k].auctionId != auctionId ==>
      ApplyRanks(bids, order)[k] == bids[k]
  {
    var r := ApplyRanks(bids, order);
    InAuctionMembers(bids, auctionId);
    forall k | 0 <= k < |bids| && bids[k].auctionId != auctionId ensures r[k] == bids[k] {
      forall j | 0 <= j < |order| ensures order[j].id != bids[k].id {
        assert order[j] in multiset(InAuction(bids, auctionId));
        var m :| 0 <= m < |bids| && bids[m] == order[j];
        assert m != k;
      }
    }
  }

  /** After the re-rank pass the auction's N rows hold ranks 1..N, each once. */
  lemma RerankContiguous(bids: seq<Bid>, order: seq<Bid>, auctionId: Id)
    requires UniqueBidIds(bids)
    requires IsAscendingSnapshot(order, bids, auctionId)
    ensures RanksContiguous(ApplyRanks(bids, order), auctionId)
  {
    var r := ApplyRanks(bids, order);
    var n := |InAuction(bids, auctionId)|;
    SnapshotShape(bids, order, auctionId);
    InAuctionCount(bids, r, auctionId);
    RerankInRange(bids, order, auctionId);
    RerankDistinct(bids, order, auctionId);
    RerankCovered(bids, order, auctionId);
  }

  lemma RerankInRange(bids: seq<Bid>, order: seq<Bid>, auctionId: Id)
    requires UniqueBidIds(bids)
    requires IsAscendingSnapshot(order, bids, auctionId)
    ensures RanksInRange(ApplyRanks(bids, order), auctionId, |InAuction(bids, auctionId)|)
  {
    var r := ApplyRanks(bids, order);
    SnapshotShape(bids, order, auctionId);
    forall k | 0 <= k < |r| && r[k].auctionId == auctionId
      ensures r[k].rank.Some? && 1 <= r[k].rank.value <= |order|
    {
      var j := RankOfRow(bids, order, auctionId, k);
    }
  }

  lemma RerankDistinct(bids: seq<Bid>, order: seq<Bid>, auctionId: Id)
    requires UniqueBidIds(bids)
    requires IsAscendingSnapshot(order, bids, auctionId)
    ensures RanksDistinct(ApplyRanks(bids, order), auctionId)
  {
    var r := ApplyRanks(bids, order);
    SnapshotShape(bids, order, auctionId);
    forall k1, k2 | 0 <= k1 < |r| && 0 <= k2 < |r| && k1 != k2 &&
        r[k1].auctionId == auctionId && r[k2].auctionId == auctionId
      ensures r[k1].rank != r[k2].rank
    {
      var j1 := RankOfRow(bids, order, auctionId, k1);
      var j2 := RankOfRow(bids, order, auctionId, k2);
      assert bids[k1].id != bids[k2].id;
    }
  }

  lemma RerankCovered(bids: seq<Bid>, order: seq<Bid>, auctionId: Id)
    requires UniqueBidIds(bids)
    requires IsAscendingSnapshot(order, bids, auctionId)
    ensures RanksCovered(ApplyRanks(bids, order), auctionId, |InAuction(bids, auctionId)|)
  {
    var r := ApplyRanks(bids, order);
    SnapshotShape(bids, order, auctionId);
    forall p | 1 <= p <= |order| ensures HasRank(r, auctionId, p) {
      RankHeld(bids, order, auctionId, p);
    }
  }

  /** Rank p goes to the row at position p - 1 of `order`. */
  lemma RankHeld(bids: seq<Bid>, order: seq<Bid>, auctionId: Id, p: nat)
    requires UniqueBidIds(bids)
    requires IsAscendingSnapshot(order, bids, auctionId)
    requires UniqueBidIds(order)
    requires 1 <= p <= |order|
    ensures HasRank(ApplyRanks(bids, order), auctionId, p)
  {
    var r := ApplyRanks(bids, order);
    InAuctionMembers(bids, auctionId);
    assert order[p - 1] in multiset(InAuction(bids, auctionId));
    var k :| 0 <= k < |bids| && bids[k] == order[p - 1];
    var j := RankOfRow(bids, order, auctionId, k);
    assert order[j].id == order[p - 1].id;
    assert j == p - 1;
    assert r[k].auctionId == auctionId && r[k].rank == Some(p);
  }

  /** After the re-rank pass a better rank never holds a higher amount. */
  lemma RerankOrdered(bids: seq<Bid>, order: seq<Bid>, auctionId: Id)
    requires UniqueBidIds(bids)
    requires IsAscendingSnapshot(order, bids, auctionId)
    ensures RankOrdered(ApplyRanks(bids, order), auctionId)
  {
    var r := ApplyRanks(bids, order);
    SnapshotShape(bids, order, auctionId);
    forall k1, k2 | 0 <= k1 < |bids| && 0 <= k2 < |bids| &&
        r[k1].auctionId == auctionId && r[k2].auctionId == auctionId &&
        r[k1].rank.Some? && r[k2].rank.Some? && r[k1].rank.value < r[k2].rank.value
      ensures r[k1].amount <= r[k2].amount
    {
      var j1 := RankOfRow(bids, order, auctionId, k1);
      var j2 := RankOfRow(bids, order, auctionId, k2);
      assert Amount(order[j1]) <= Amount(order[j2]);
    }
  }

  /** Rows of other auctions that a step leaves in place, and new rows that
      belong elsewhere, keep an auction ranked. */
  lemma RankedAuctionFramed(x: seq<Bid>, y: seq<Bid>, auctionId: Id)
    requires |x| <= |y|
    requires forall k :: 0 <= k < |x| && (x[k].auctionId == auctionId || y[k].auctionId == auctionId) ==> y[k] == x[k]
    requires forall k :: |x| <= k < |y| ==> y[k].auctionId != auctionId
    requires RankedAuction(x, auctionId)
    ensures RankedAuction(y, auctionId)
  {
    InAuctionFramed(x, y, auctionId);
    var n := |InAuction(x, auctionId)|;
    forall p | 1 <= p <= n ensures HasRank(y, auctionId, p) {
      assert HasRank(x, auctionId, p);
      var k :| 0 <= k < |x| && x[k].auctionId == auctionId && x[k].rank == Some(p);
      assert y[k] == x[k];
    }
  }

  /** A re-rank pass over one auction, when every other auction was ranked,
      leaves the whole table ranked, with the same ids row by row. */
  lemma RerankKeepsRanked(bids: seq<Bid>, order: seq<Bid>, auctionId: Id)
    requires UniqueBidIds(bids)
    requires IsAscendingSnapshot(order, bids, auctionId)
    requires RankedExcept(bids, auctionId)
    ensures Ranked(ApplyRanks(bids, order))
    ensures RankedAuction(ApplyRanks(bids, order), auctionId)
    ensures forall k :: 0 <= k < |bids| ==>
      ApplyRanks(bids, order)[k] == bids[k].(rank := ApplyRanks(bids, order)[k].rank)
    ensures forall k :: 0 <= k < |bids| && bids[k].auctionId != auctionId ==>
      ApplyRanks(bids, order)[k] == bids[k]
  {
    var r := ApplyRanks(bids, order);
    RerankFrame(bids, order, auctionId);
    RerankContiguous(bids, order, auctionId);
    RerankOrdered(bids, order, auctionId);
    forall k | 0 <= k < |r| ensures RankedAuction(r, r[k].auctionId) {
      if r[k].auctionId != auctionId {
        assert bids[k].auctionId == r[k].auctionId;
        RankedAuctionFramed(bids, r, r[k].auctionId);
      }
    }
  }
}
