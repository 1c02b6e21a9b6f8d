/** The read-only queries of OrderBook in capstone_project/order_book.cpp
    (get_best_bid, get_best_ask, get_spread, get_version, get_order_count,
    get_bid_levels, get_ask_levels and the content of get_snapshot) as
    functions of the book state, with what they mean in a well-formed book. */
module Queries {
  import opened Records
  import opened Levels
  import opened Keys
  import opened BookState

  /** get_best_bid: 0 without bids, else the price of the front (highest) bid level. */
  function BestBid(s: BookState): (r: int)
    ensures s.bids == map[] ==> r == 0
    ensures s.bids != map[] && KeyedByPrice(s.bids) ==> r in s.bids && forall p :: p in s.bids ==> p <= r
  {
    if s.bids == map[] then 0 else s.bids[BestBidKey(s)].price
  }

  /** get_best_ask: NO_ASK without asks, else the price of the front (lowest) ask level. */
  function BestAsk(s: BookState): (r: int)
    ensures s.asks == map[] ==> r == NO_ASK
    ensures s.asks != map[] && KeyedByPrice(s.asks) ==> r in s.asks && forall p :: p in s.asks ==> r <= p
  {
    if s.asks == map[] then NO_ASK else s.asks[BestAskKey(s)].price
  }

  /** get_spread: 0 when the best ask is the sentinel, else best ask - best bid. */
  function Spread(s: BookState): (r: int)
    ensures s.asks == map[] ==> r == 0
    ensures BestAsk(s) != NO_ASK ==> BestBid(s) + r == BestAsk(s)
  {
    var ask := BestAsk(s);
    if ask == NO_ASK then 0 else ask - BestBid(s)
  }

  /** get_version: the counter that every accepted add, successful cancel and
      successful amend raises by one. */
  function Version(s: BookState): (r: nat)
    ensures r == s.version
  {
    s.version
  }

  /** get_order_count counts registry entries, not the orders still queued. */
  function OrderCount(s: BookState): (r: nat)
    ensures r == 0 <==> s.lookup == map[]
  {
    |s.lookup|
  }

  /** get_bid_levels: the number of distinct bid prices. */
  function BidLevels(s: BookState): (r: nat)
    ensures r == 0 <==> s.bids == map[]
  {
    |s.bids|
  }

  /** get_ask_levels: the number of distinct ask prices. */
  function AskLevels(s: BookState): (r: nat)
    ensures r == 0 <==> s.asks == map[]
  {
    |s.asks|
  }

  /** In a well-formed book the best bid is the highest bid price held, and no
      bid at all reads as 0. */
  lemma BestBidIsHighest(s: BookState)
    requires Inv(s)
    ensures s.bids == map[] <==> BestBid(s) == 0
    ensures s.bids != map[] ==> BestBid(s) in s.bids && forall p :: p in s.bids ==> p <= BestBid(s)
  {
    if s.bids != map[] {
      assert LevelOk(s.bids[BestBidKey(s)], BestBidKey(s), true, s.slots);
      assert BestBid(s) == BestBidKey(s);
      assert ValidPrice(BestBid(s)) by {
        var h := s.bids[BestBidKey(s)].queue[0];
        assert Placed(s, h);
      }
    }
  }

  /** The best ask is the lowest ask price held, and no ask at all reads as the
      sentinel, which is above every valid price. */
  lemma BestAskIsLowest(s: BookState)
    requires Inv(s)
    ensures s.asks == map[] <==> BestAsk(s) == NO_ASK
    ensures s.asks != map[] ==> && BestAsk(s) in s.asks && ValidPrice(BestAsk(s))
                                && forall p :: p in s.asks ==> BestAsk(s) <= p
  {
    if s.asks != map[] {
      assert LevelOk(s.asks[BestAskKey(s)], BestAskKey(s), false, s.slots);
      assert BestAsk(s) == BestAskKey(s);
      var h := s.asks[BestAskKey(s)].queue[0];
      assert Placed(s, h);
    }
  }

  /** The spread is 0 exactly when there are no asks, or when the best bid
      equals the best ask; with asks but no bids it is the best ask itself
      (ask - 0); with both sides it is positive exactly when the book is not
      crossed. */
  lemma SpreadMeaning(s: BookState)
    requires Inv(s)
    ensures Spread(s) == 0 <==> s.asks == map[] || (s.bids != map[] && BestBidKey(s) == BestAskKey(s))
    ensures s.asks != map[] && s.bids == map[] ==> Spread(s) == BestAsk(s) > 0
    ensures s.asks != map[] && s.bids != map[] ==> (Spread(s) > 0 <==> !Crossed(s))
  {
    BestBidIsHighest(s);
    BestAskIsLowest(s);
    if s.bids != map[] {
      assert s.bids[BestBidKey(s)].price == BestBidKey(s) by {
        assert LevelOk(s.bids[BestBidKey(s)], BestBidKey(s), true, s.slots);
      }
    }
    if s.asks != map[] {
      assert s.asks[BestAskKey(s)].price == BestAskKey(s) by {
        assert LevelOk(s.asks[BestAskKey(s)], BestAskKey(s), false, s.slots);
      }
    }
  }

  // ---------------------------------------------------------------------------
  // get_snapshot

  /** The first `depth` levels of one side in its iteration order (bids from the
      highest price, asks from the lowest), each as (level price, aggregate). */
  function TopLevels(side: map<int, Level>, isBuy: bool, depth: nat): (r: seq<PriceLevel>)
    ensures |r| <= depth && |r| <= |side|
    ensures |r| == depth || |r| == |side|
    decreases depth
  {
    if depth == 0 || side == map[] then []
    else
      var k := BestKey(side.Keys, isBuy);
      assert |side - {k}| == |side| - 1;
      [MakePriceLevel(side[k].price, side[k].totalQuantity)] + TopLevels(side - {k}, isBuy, depth - 1)
  }

  /** Every level of a side index carries its own key as its price. */
  ghost predicate KeyedByPrice(side: map<int, Level>)
  {
    forall p :: p in side ==> side[p].price == p
  }

  /** One step of the listing: the best remaining level, then the rest. */
  lemma TopLevelsStep(side: map<int, Level>, isBuy: bool, depth: nat)
    requires depth != 0 && side != map[]
    ensures var k := BestKey(side.Keys, isBuy);
            var r := TopLevels(side, isBuy, depth);
            && |r| == 1 + |TopLevels(side - {k}, isBuy, depth - 1)|
            && r[0] == MakePriceLevel(side[k].price, side[k].totalQuantity)
            && forall i :: 1 <= i < |r| ==> r[i] == TopLevels(side - {k}, isBuy, depth - 1)[i - 1]
  {
  }

  /** The listing, unfolded once. */
  lemma TopLevelsCons(side: map<int, Level>, isBuy: bool, depth: nat)
    requires depth != 0 && side != map[]
    ensures var k := BestKey(side.Keys, isBuy);
            TopLevels(side, isBuy, depth) ==
              [MakePriceLevel(side[k].price, side[k].totalQuantity)] + TopLevels(side - {k}, isBuy, depth - 1)
  {
  }

  /** Each reported level is a level of the side, with its aggregate. */
  lemma {:induction false} TopLevelsFromSide(side: map<int, Level>, isBuy: bool, depth: nat)
    requires KeyedByPrice(side)
    ensures var r := TopLevels(side, isBuy, depth);
            forall i :: 0 <= i < |r| ==> r[i].price in side && r[i].totalQuantity == side[r[i].price].totalQuantity
    decreases depth
  {
    if depth != 0 && side != map[] {
      var k := BestKey(side.Keys, isBuy);
      TopLevelsStep(side, isBuy, depth);
      TopLevelsFromSide(side - {k}, isBuy, depth - 1);
    }
  }

  /** The reported levels are strictly in priority order: bids falling, asks rising. */
  lemma {:induction false} TopLevelsOrdered(side: map<int, Level>, isBuy: bool, depth: nat)
    requires KeyedByPrice(side)
    ensures var r := TopLevels(side, isBuy, depth);
            forall i, j :: 0 <= i < j < |r| ==> Before(isBuy, r[i].price, r[j].price)
    decreases depth
  {
    if depth != 0 && side != map[] {
      var k := BestKey(side.Keys, isBuy);
      var rest := side - {k};
      TopLevelsFromSide(rest, isBuy, depth - 1);
      TopLevelsOrdered(rest, isBuy, depth - 1);
      TopLevelsStep(side, isBuy, depth);
      var t := TopLevels(rest, isBuy, depth - 1);
      var r := TopLevels(side, isBuy, depth);
      forall i, j | 0 <= i < j < |r| ensures Before(isBuy, r[i].price, r[j].price) {
        if i == 0 {
          assert r[j] == t[j - 1] && t[j - 1].price in rest;
        } else {
          assert r[i] == t[i - 1] && r[j] == t[j - 1];
        }
      }
    }
  }

  /** No level of the side that is better than a reported one is left out. */
  lemma {:induction false} TopLevelsNoneSkipped(side: map<int, Level>, isBuy: bool, depth: nat)
    requires KeyedByPrice(side)
    ensures var r := TopLevels(side, isBuy, depth);
            forall p, i :: p in side && 0 <= i < |r| && Before(isBuy, p, r[i].price) ==>
              exists j :: 0 <= j < i && r[j].price == p
    decreases depth
  {
    if depth != 0 && side != map[] {
      var k := BestKey(side.Keys, isBuy);
      var rest := side - {k};
      TopLevelsStep(side, isBuy, depth);
      var t := TopLevels(rest, isBuy, depth - 1);
      var r := TopLevels(side, isBuy, depth);
      TopLevelsNoneSkipped(rest, isBuy, depth - 1);
      forall p, i | p in side && 0 <= i < |r| && Before(isBuy, p, r[i].price)
        ensures exists j :: 0 <= j < i && r[j].price == p
      {
        if p == k {
          assert r[0].price == p;
        } else if i > 0 {
          // (i == 0 cannot happen: nothing is better than the best key)
          assert r[i] == t[i - 1] && p in rest;
          ShiftWitness(r, t, i, p);
        }
      }
    }
  }

  /** A level listed before position i - 1 of the tail is listed before
      position i of the whole listing. */
  lemma ShiftWitness(r: seq<PriceLevel>, t: seq<PriceLevel>, i: nat, p: int)
    requires |r| == |t| + 1 && forall n :: 1 <= n < |r| ==> r[n] == t[n - 1]
    requires 0 < i < |r| && exists j :: 0 <= j < i - 1 && t[j].price == p
    ensures exists j :: 0 <= j < i && r[j].price == p
  {
    var j :| 0 <= j < i - 1 && t[j].price == p;
    assert r[j + 1] == t[j];
  }

  /** get_snapshot(depth): the top `depth` bid levels and the top `depth` ask levels. */
  function Snapshot(s: BookState, depth: nat): (r: (seq<PriceLevel>, seq<PriceLevel>))
    ensures |r.0| == if depth <= |s.bids| then depth else |s.bids|
    ensures |r.1| == if depth <= |s.asks| then depth else |s.asks|
  {
    (TopLevels(s.bids, true, depth), TopLevels(s.asks, false, depth))
  }

  /** `r` lists real levels of `side` with their aggregates, strictly in
      priority order, and skips no level better than one it lists. */
  ghost predicate ListsBest(side: map<int, Level>, isBuy: bool, r: seq<PriceLevel>)
  {
    && (forall i :: 0 <= i < |r| ==> r[i].price in side && r[i].totalQuantity == side[r[i].price].totalQuantity)
    && (forall i, j :: 0 <= i < j < |r| ==> Before(isBuy, r[i].price, r[j].price))
    && (forall p, i :: p in side && 0 <= i < |r| && Before(isBuy, p, r[i].price) ==>
          exists j :: 0 <= j < i && r[j].price == p)
  }

  lemma TopLevelsListsBest(side: map<int, Level>, isBuy: bool, depth: nat)
    requires KeyedByPrice(side)
    ensures ListsBest(side, isBuy, TopLevels(side, isBuy, depth))
  {
    TopLevelsFromSide(side, isBuy, depth);
    TopLevelsOrdered(side, isBuy, depth);
    TopLevelsNoneSkipped(side, isBuy, depth);
  }

  /** Both side indexes of a well-formed book are keyed by price. */
  lemma InvKeyedByPrice(s: BookState)
    requires Inv(s)
    ensures KeyedByPrice(s.bids) && KeyedByPrice(s.asks)
  {
    forall p | p in s.bids ensures s.bids[p].price == p {
      assert LevelOk(s.bids[p], p, true, s.slots);
    }
    forall p | p in s.asks ensures s.asks[p].price == p {
      assert LevelOk(s.asks[p], p, false, s.slots);
    }
  }

  /** In a well-formed book the snapshot holds min(depth, levels) entries per
      side, each side listing its best levels in priority order. */
  lemma SnapshotMeaning(s: BookState, depth: nat)
    requires Inv(s)
    ensures |Snapshot(s, depth).0| == if depth <= |s.bids| then depth else |s.bids|
    ensures |Snapshot(s, depth).1| == if depth <= |s.asks| then depth else |s.asks|
    ensures ListsBest(s.bids, true, Snapshot(s, depth).0)
    ensures ListsBest(s.asks, false, Snapshot(s, depth).1)
  {
    InvKeyedByPrice(s);
    TopLevelsListsBest(s.bids, true, depth);
    TopLevelsListsBest(s.asks, false, depth);
  }
}
