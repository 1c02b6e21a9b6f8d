/** The matching engine of capstone_project/order_book.cpp (Impl::match_orders and
    Impl::remove_filled_order) as functions on the book state, with the proofs
    that each step keeps the invariant, strictly shrinks the set of stored
    orders, never changes the version or a level's aggregate quantity, and that
    the loop stops only when the book is uncrossed or a best level's front order
    is inactive. */
module Matching {
  import opened Records
  import opened Pool
  import opened Levels
  import opened Keys
  import opened BookState
  import opened Steps
  import opened Collections

  function Min(a: nat, b: nat): nat
  {
    if a <= b then a else b
  }

  /** The precondition remove_filled_order relies on: a filled active order is
      linked in the level it is removed from. */
  ghost predicate CanRemove(s: BookState, h: nat, isBuy: bool, p: int)
  {
    && h in s.slots
    && p in Side(s, isBuy)
    && (s.slots[h].quantity == 0 && s.slots[h].isActive ==>
          h in Side(s, isBuy)[p].queue && Side(s, isBuy)[p].orderCount >= 1)
  }

  /** Impl::remove_filled_order: an order whose quantity reached zero is unlinked
      from level p (subtracting its quantity, which is zero), its registry entry
      is erased and its slot released; the level is dropped when it is empty.
      The flag says whether the level was dropped. */
  function RemoveFilled(s: BookState, h: nat, isBuy: bool, p: int): (r: (BookState, bool))
    requires CanRemove(s, h, isBuy, p)
    ensures s.slots[h].quantity != 0 ==> r == (s, false)
    ensures s.slots[h].quantity == 0 ==> && r.0.slots == s.slots - {h}
                                         && r.0.lookup == s.lookup - {s.slots[h].orderId}
                                         && r.0.pool == Released(s.pool, At(h))
    ensures s.slots[h].quantity == 0 ==>
              var u := Unlink(Side(s, isBuy)[p], h, s.slots[h]).0;
              Side(r.0, isBuy) == if IsEmpty(u) then Side(s, isBuy) - {p} else Side(s, isBuy)[p := u]
    ensures Side(r.0, !isBuy) == Side(s, !isBuy)
    ensures r.0.version == s.version && r.0.matching == s.matching
    ensures r.1 <==> p !in Side(r.0, isBuy)
    ensures r.0.slots.Keys <= s.slots.Keys
    ensures forall k :: k in r.0.slots ==> r.0.slots[k] == s.slots[k]
    ensures forall p' :: p' in Side(r.0, isBuy) ==>
              p' in Side(s, isBuy) && Side(r.0, isBuy)[p'].totalQuantity == Side(s, isBuy)[p'].totalQuantity
  {
    if s.slots[h].quantity != 0 then (s, false)
    else
      var d := Detach(s, h, isBuy, p);
      var r := d.(pool := Released(d.pool, At(h)));
      (r, p !in Side(r, isBuy))
  }

  /** Every level still in the book was there before and kept its aggregate
      quantity: fills never lower a level's total_quantity. */
  ghost predicate TotalsKept(s: BookState, r: BookState)
  {
    && (forall p :: p in r.bids ==> p in s.bids && r.bids[p].totalQuantity == s.bids[p].totalQuantity)
    && (forall p :: p in r.asks ==> p in s.asks && r.asks[p].totalQuantity == s.asks[p].totalQuantity)
  }

  /** Every reported trade has a positive quantity. */
  ghost predicate TradesPositive(trades: seq<Trade>)
  {
    forall i :: 0 <= i < |trades| ==> trades[i].quantity > 0
  }

  lemma TradesPositiveCons(t: Trade, trades: seq<Trade>)
    requires t.quantity > 0 && TradesPositive(trades)
    ensures TradesPositive([t] + trades)
  {
    forall i | 0 <= i < |[t] + trades| ensures ([t] + trades)[i].quantity > 0 {
      if i > 0 { assert ([t] + trades)[i] == trades[i - 1]; }
    }
  }

  /** The price of a trade: the bid order's price when it is not younger than the
      ask order, the ask order's price otherwise. */
  function TradePrice(bid: Order, ask: Order): (p: int)
    ensures bid.timestampNs <= ask.timestampNs ==> p == bid.price
    ensures bid.timestampNs > ask.timestampNs ==> p == ask.price
  {
    if bid.timestampNs <= ask.timestampNs then bid.price else ask.price
  }

  /** The guards of one pass of the matching loop: both sides non-empty, the best
      bid key at or above the best ask key, both best levels active, both queues
      non-empty and both front orders active. */
  ghost predicate CanMatch(s: BookState)
    requires Inv(s)
    ensures CanMatch(s) ==>
              && s.bids != map[] && s.asks != map[]
              && s.bids[BestBidKey(s)].queue != [] && s.asks[BestAskKey(s)].queue != []
              && s.bids[BestBidKey(s)].queue[0] in s.slots && s.asks[BestAskKey(s)].queue[0] in s.slots
              && var b := s.slots[s.bids[BestBidKey(s)].queue[0]];
                 var a := s.slots[s.asks[BestAskKey(s)].queue[0]];
                 && b.isBuy && !a.isBuy && b.quantity > 0 && a.quantity > 0 && b.price >= a.price
  {
    && s.bids != map[] && s.asks != map[]
    && BestBidKey(s) >= BestAskKey(s)
    && s.bids[BestBidKey(s)].isActive && s.asks[BestAskKey(s)].isActive
    && s.bids[BestBidKey(s)].queue != [] && s.asks[BestAskKey(s)].queue != []
    && s.slots[s.bids[BestBidKey(s)].queue[0]].isActive
    && s.slots[s.asks[BestAskKey(s)].queue[0]].isActive
  }

  /** The orders at the front of the two best levels. */
  function FrontBid(s: BookState): (h: nat)
    requires Inv(s) && s.bids != map[]
    ensures h in s.slots && s.slots[h].isBuy && s.slots[h].price == BestBidKey(s)
    ensures h in s.bids[BestBidKey(s)].queue && s.bids[BestBidKey(s)].orderCount >= 1
  {
    assert LevelOk(s.bids[BestBidKey(s)], BestBidKey(s), true, s.slots);
    s.bids[BestBidKey(s)].queue[0]
  }

  function FrontAsk(s: BookState): (h: nat)
    requires Inv(s) && s.asks != map[]
    ensures h in s.slots && !s.slots[h].isBuy && s.slots[h].price == BestAskKey(s)
    ensures h in s.asks[BestAskKey(s)].queue && s.asks[BestAskKey(s)].orderCount >= 1
  {
    assert LevelOk(s.asks[BestAskKey(s)], BestAskKey(s), false, s.slots);
    s.asks[BestAskKey(s)].queue[0]
  }

  /** In a well-formed book the loop guards reduce to: the book is crossed and
      both front orders are active. */
  lemma CanMatchIff(s: BookState)
    requires Inv(s)
    ensures CanMatch(s) <==> && Crossed(s)
                             && s.slots[FrontBid(s)].isActive
                             && s.slots[FrontAsk(s)].isActive
  {
    if s.bids != map[] && s.asks != map[] {
      assert LevelOk(s.bids[BestBidKey(s)], BestBidKey(s), true, s.slots);
      assert LevelOk(s.asks[BestAskKey(s)], BestAskKey(s), false, s.slots);
    }
  }

  /** Take q off the quantity of the order in slot h; nothing else changes. */
  function Take(slots: map<nat, Order>, h: nat, q: nat): (r: map<nat, Order>)
    requires h in slots && q <= slots[h].quantity
    ensures r.Keys == slots.Keys
    ensures r[h] == slots[h].(quantity := slots[h].quantity - q)
    ensures forall k :: k in r && k != h ==> r[k] == slots[k]
  {
    slots[h := slots[h].(quantity := slots[h].quantity - q)]
  }

  /** The book after the fill of one trade, before filled orders are removed:
      both orders lose q, every other order and everything else is unchanged. */
  function Filled(s: BookState, bh: nat, ah: nat, q: nat): (r: BookState)
    requires bh in s.slots && ah in s.slots && bh != ah
    requires q <= s.slots[bh].quantity && q <= s.slots[ah].quantity
    ensures r == s.(slots := r.slots) && r.slots.Keys == s.slots.Keys
    ensures r.slots[bh].quantity == s.slots[bh].quantity - q
    ensures r.slots[ah].quantity == s.slots[ah].quantity - q
    ensures forall k :: k in r.slots ==> && r.slots[k] == s.slots[k].(quantity := r.slots[k].quantity)
                                         && r.slots[k].quantity <= s.slots[k].quantity
    ensures forall k :: k in r.slots && k != bh && k != ah ==> r.slots[k] == s.slots[k]
  {
    s.(slots := Take(Take(s.slots, bh, q), ah, q))
  }

  /** What one trade between the orders in slots bh and ah relies on: each is
      linked in its level, bid level bp and ask level ap. */
  ghost predicate CanTrade(s: BookState, bh: nat, ah: nat, bp: int, ap: int)
  {
    && bh in s.slots && ah in s.slots && bh != ah
    && bp in s.bids && bh in s.bids[bp].queue && s.bids[bp].orderCount >= 1
    && ap in s.asks && ah in s.asks[ap].queue && s.asks[ap].orderCount >= 1
  }

  /** One trade between the bid in slot bh and the ask in slot ah: min of the
      two quantities at the price of the older order, taken off both orders;
      then the bid, and after it the ask, is removed when filled. */
  function TradeAt(s: BookState, bh: nat, ah: nat, bp: int, ap: int): (r: (BookState, Trade))
    requires CanTrade(s, bh, ah, bp, ap)
    ensures var bo := s.slots[bh];
            var ao := s.slots[ah];
            r.1 == Trade(bo.orderId, ao.orderId, Min(bo.quantity, ao.quantity), TradePrice(bo, ao))
  {
    var bo := s.slots[bh];
    var ao := s.slots[ah];
    var q := Min(bo.quantity, ao.quantity);
    var filled := Filled(s, bh, ah, q);
    var afterBid := RemoveFilled(filled, bh, true, bp).0;
    (RemoveFilled(afterBid, ah, false, ap).0, Trade(bo.orderId, ao.orderId, q, TradePrice(bo, ao)))
  }

  /** One trade touches no stored order but the two it trades, and leaves the
      version alone. */
  lemma TradeAtFrame(s: BookState, bh: nat, ah: nat, bp: int, ap: int)
    requires CanTrade(s, bh, ah, bp, ap)
    ensures var t := TradeAt(s, bh, ah, bp, ap).0;
            && t.version == s.version && t.matching == s.matching
            && (forall k :: k in t.slots ==> k in s.slots && (k != bh && k != ah ==> t.slots[k] == s.slots[k]))
            && (forall k :: k in s.slots && k != bh && k != ah ==> k in t.slots)
  {
    var bo := s.slots[bh];
    var ao := s.slots[ah];
    var f := Filled(s, bh, ah, Min(bo.quantity, ao.quantity));
    var a := RemoveFilled(f, bh, true, bp).0;
    assert TradeAt(s, bh, ah, bp, ap).0 == RemoveFilled(a, ah, false, ap).0;
    assert forall k :: k in f.slots && k != bh && k != ah ==> k in a.slots;
  }

  /** The two traded orders: one that keeps quantity stays stored with the
      traded quantity taken off; one filled to zero is gone. */
  lemma TradeAtOrders(s: BookState, bh: nat, ah: nat, bp: int, ap: int)
    requires CanTrade(s, bh, ah, bp, ap)
    ensures var t := TradeAt(s, bh, ah, bp, ap).0;
            var bo := s.slots[bh];
            var ao := s.slots[ah];
            && (bo.quantity > ao.quantity ==> bh in t.slots && t.slots[bh] == bo.(quantity := bo.quantity - ao.quantity))
            && (bo.quantity <= ao.quantity ==> bh !in t.slots)
            && (ao.quantity > bo.quantity ==> ah in t.slots && t.slots[ah] == ao.(quantity := ao.quantity - bo.quantity))
            && (ao.quantity <= bo.quantity ==> ah !in t.slots)
  {
    var bo := s.slots[bh];
    var ao := s.slots[ah];
    var f := Filled(s, bh, ah, Min(bo.quantity, ao.quantity));
    var q := Min(bo.quantity, ao.quantity);
    var slots := s.slots[bh := bo.(quantity := bo.quantity - q)][ah := ao.(quantity := ao.quantity - q)];
    assert f.slots == slots;
    var a := RemoveFilled(f, bh, true, bp).0;
    var t := RemoveFilled(a, ah, false, ap).0;
    assert TradeAt(s, bh, ah, bp, ap).0 == t;
    assert a.slots == if bo.quantity == q then slots - {bh} else slots;
    assert t.slots == if ao.quantity == q then a.slots - {ah} else a.slots;
  }

  /** The bid side one trade leaves: unchanged while the bid keeps quantity;
      otherwise the bid leaves its level, which is erased when it held no
      other order. */
  lemma TradeAtBids(s: BookState, bh: nat, ah: nat, bp: int, ap: int)
    requires CanTrade(s, bh, ah, bp, ap)
    ensures var t := TradeAt(s, bh, ah, bp, ap).0;
            var bo := s.slots[bh];
            var ao := s.slots[ah];
            && (bo.quantity > ao.quantity ==> t.bids == s.bids)
            && (bo.quantity <= ao.quantity ==>
                  var u := Unlink(s.bids[bp], bh, bo.(quantity := 0)).0;
                  t.bids == if IsEmpty(u) then s.bids - {bp} else s.bids[bp := u])
  {
    var bo := s.slots[bh];
    var ao := s.slots[ah];
    var f := Filled(s, bh, ah, Min(bo.quantity, ao.quantity));
    var a := RemoveFilled(f, bh, true, bp).0;
    assert TradeAt(s, bh, ah, bp, ap).0.bids == a.bids;
  }

  /** The ask side one trade leaves, as for the bid side. */
  lemma TradeAtAsks(s: BookState, bh: nat, ah: nat, bp: int, ap: int)
    requires CanTrade(s, bh, ah, bp, ap)
    ensures var t := TradeAt(s, bh, ah, bp, ap).0;
            var bo := s.slots[bh];
            var ao := s.slots[ah];
            && (ao.quantity > bo.quantity ==> t.asks == s.asks)
            && (ao.quantity <= bo.quantity ==>
                  var u := Unlink(s.asks[ap], ah, ao.(quantity := 0)).0;
                  t.asks == if IsEmpty(u) then s.asks - {ap} else s.asks[ap := u])
  {
    var bo := s.slots[bh];
    var ao := s.slots[ah];
    var f := Filled(s, bh, ah, Min(bo.quantity, ao.quantity));
    var a := RemoveFilled(f, bh, true, bp).0;
    assert a.asks == s.asks && ah in a.slots && a.slots[ah] == f.slots[ah];
    assert TradeAt(s, bh, ah, bp, ap).0 == RemoveFilled(a, ah, false, ap).0;
  }

  /** One pass of the matching loop: None when the loop breaks or its condition
      fails; otherwise the book after the trade between the two front orders,
      with the trade. */
  function MatchStep(s: BookState): (r: Option<(BookState, Trade)>)
    requires Inv(s)
    ensures r.Some? <==> CanMatch(s)
    ensures r.Some? ==> r.value == Execute(s)
  {
    if s.bids == map[] || s.asks == map[] then None
    else
      var bp := BestBidKey(s);
      var ap := BestAskKey(s);
      if bp < ap then None
      else
        var bidLevel := s.bids[bp];
        var askLevel := s.asks[ap];
        if !bidLevel.isActive || !askLevel.isActive then None
        else if bidLevel.queue == [] || askLevel.queue == [] then None
        else if !s.slots[bidLevel.queue[0]].isActive || !s.slots[askLevel.queue[0]].isActive then None
        else Some(Execute(s))
  }

  /** The traded quantity: the smaller of the two front orders' quantities. */
  function FillQuantity(s: BookState): nat
    requires Inv(s) && CanMatch(s)
  {
    Min(s.slots[FrontBid(s)].quantity, s.slots[FrontAsk(s)].quantity)
  }

  /** The book once the traded quantity is taken off both front orders. */
  function FillFront(s: BookState): (r: BookState)
    requires Inv(s) && CanMatch(s)
    ensures r == s.(slots := r.slots) && r.slots.Keys == s.slots.Keys
    ensures forall k :: k in r.slots ==> && r.slots[k] == s.slots[k].(quantity := r.slots[k].quantity)
                                         && r.slots[k].quantity <= s.slots[k].quantity
    ensures r.slots[FrontBid(s)].quantity == 0 || r.slots[FrontAsk(s)].quantity == 0
    ensures forall k :: k in r.slots && r.slots[k].quantity == 0 ==> k == FrontBid(s) || k == FrontAsk(s) || s.slots[k].quantity == 0
  {
    Filled(s, FrontBid(s), FrontAsk(s), FillQuantity(s))
  }

  /** The book after remove_filled_order on the front bid. */
  function AfterBid(s: BookState): (r: BookState)
    requires Inv(s) && CanMatch(s)
    ensures r.asks == s.asks && FrontAsk(s) in r.slots && r.slots.Keys <= s.slots.Keys
    ensures TotalsKept(s, r)
    ensures forall k :: k in r.slots ==> r.slots[k] == FillFront(s).slots[k]
    ensures FillFront(s).slots[FrontBid(s)].quantity == 0 ==> FrontBid(s) !in r.slots
    ensures r.version == s.version && r.matching == s.matching
  {
    RemoveFilled(FillFront(s), FrontBid(s), true, BestBidKey(s)).0
  }

  /** The body of the matching loop once its guards hold: trade min(front bid,
      front ask) at the price of the older order, take it off both orders, and
      remove the bid, then the ask, when filled. */
  function Execute(s: BookState): (r: (BookState, Trade))
    requires Inv(s) && CanMatch(s)
    ensures r.0.slots.Keys < s.slots.Keys
    ensures r.0.version == s.version && r.0.matching == s.matching
    ensures TotalsKept(s, r.0) && r.1.quantity > 0
    ensures var bo := s.slots[FrontBid(s)];
            var ao := s.slots[FrontAsk(s)];
            r.1 == Trade(bo.orderId, ao.orderId, Min(bo.quantity, ao.quantity), TradePrice(bo, ao))
    ensures forall k :: k in r.0.slots ==> r.0.slots[k] == FillFront(s).slots[k]
    ensures FillFront(s).slots[FrontBid(s)].quantity == 0 ==> FrontBid(s) !in r.0.slots
    ensures FillFront(s).slots[FrontAsk(s)].quantity == 0 ==> FrontAsk(s) !in r.0.slots
  {
    var bo := s.slots[FrontBid(s)];
    var ao := s.slots[FrontAsk(s)];
    var next := RemoveFilled(AfterBid(s), FrontAsk(s), false, BestAskKey(s)).0;
    assert FrontBid(s) !in next.slots || FrontAsk(s) !in next.slots;
    (next, Trade(bo.orderId, ao.orderId, FillQuantity(s), TradePrice(bo, ao)))
  }

  /** The pass Execute makes is TradeAt on the two front orders. */
  lemma ExecuteIsTradeAt(s: BookState)
    requires Inv(s) && CanMatch(s)
    ensures CanTrade(s, FrontBid(s), FrontAsk(s), BestBidKey(s), BestAskKey(s))
    ensures Execute(s) == TradeAt(s, FrontBid(s), FrontAsk(s), BestBidKey(s), BestAskKey(s))
  {
    assert FillFront(s) == Filled(s, FrontBid(s), FrontAsk(s), FillQuantity(s));
  }

  /** One pass removes exactly the front orders it filled, and nothing else. */
  lemma ExecuteKeys(s: BookState)
    requires Inv(s) && CanMatch(s)
    ensures var f := FillFront(s).slots;
            Execute(s).0.slots.Keys == s.slots.Keys - (if f[FrontBid(s)].quantity == 0 then {FrontBid(s)} else {})
                                                    - (if f[FrontAsk(s)].quantity == 0 then {FrontAsk(s)} else {})
  {
  }

  /** What one pass does to the sides: a front order that still has quantity
      stays at the head of its level and leaves its side unchanged; a filled one
      leaves the head of its level, which keeps its other orders in their order
      and its aggregate, and is erased when that order was its only one. Every
      other level is untouched. */
  lemma ExecuteSides(s: BookState)
    requires Inv(s) && CanMatch(s)
    ensures var bh, bp := FrontBid(s), BestBidKey(s);
            var lb := s.bids[bp];
            var t := Execute(s).0;
            && bh == lb.queue[0]
            && (FillFront(s).slots[bh].quantity > 0 ==> t.bids == s.bids)
            && (FillFront(s).slots[bh].quantity == 0 ==>
                  t.bids == if |lb.queue| == 1 then s.bids - {bp}
                            else s.bids[bp := lb.(queue := lb.queue[1..], orderCount := lb.orderCount - 1)])
    ensures var ah, ap := FrontAsk(s), BestAskKey(s);
            var la := s.asks[ap];
            var t := Execute(s).0;
            && ah == la.queue[0]
            && (FillFront(s).slots[ah].quantity > 0 ==> t.asks == s.asks)
            && (FillFront(s).slots[ah].quantity == 0 ==>
                  t.asks == if |la.queue| == 1 then s.asks - {ap}
                            else s.asks[ap := la.(queue := la.queue[1..], orderCount := la.orderCount - 1)])
  {
    var bh, bp, ah, ap := FrontBid(s), BestBidKey(s), FrontAsk(s), BestAskKey(s);
    var lb, la := s.bids[bp], s.asks[ap];
    assert LevelOk(lb, bp, true, s.slots);
    assert LevelOk(la, ap, false, s.slots);
    var f := FillFront(s);
    var a := AfterBid(s);
    assert a == RemoveFilled(f, bh, true, bp).0;
    assert Execute(s).0 == RemoveFilled(a, ah, false, ap).0;
    if f.slots[bh].quantity == 0 {
      UnlinkFront(lb, bh, f.slots[bh]);
    }
    if f.slots[ah].quantity == 0 {
      assert a.slots[ah] == f.slots[ah];
      UnlinkFront(la, ah, f.slots[ah]);
    }
  }

  /** Time priority at the best bid price: the order at the head of the level
      is the one that trades, and the level only ever loses its head, so the
      order queued behind it keeps its place until the head has been filled and
      removed. */
  lemma BidFrontTradesFirst(s: BookState)
    requires Inv(s) && CanMatch(s)
    ensures var lb := s.bids[BestBidKey(s)];
            var t := Execute(s).0;
            |lb.queue| >= 2 ==>
              && Execute(s).1.bidId == s.slots[lb.queue[0]].orderId
              && BestBidKey(s) in t.bids
              && (t.bids[BestBidKey(s)].queue == lb.queue <==> lb.queue[0] in t.slots)
              && (t.bids[BestBidKey(s)].queue != lb.queue ==> t.bids[BestBidKey(s)].queue == lb.queue[1..])
  {
    ExecuteSides(s);
    ExecuteKeys(s);
  }

  /** Time priority at the best ask price, as for the bids. */
  lemma AskFrontTradesFirst(s: BookState)
    requires Inv(s) && CanMatch(s)
    ensures var la := s.asks[BestAskKey(s)];
            var t := Execute(s).0;
            |la.queue| >= 2 ==>
              && Execute(s).1.askId == s.slots[la.queue[0]].orderId
              && BestAskKey(s) in t.asks
              && (t.asks[BestAskKey(s)].queue == la.queue <==> la.queue[0] in t.slots)
              && (t.asks[BestAskKey(s)].queue != la.queue ==> t.asks[BestAskKey(s)].queue == la.queue[1..])
  {
    ExecuteSides(s);
    ExecuteKeys(s);
  }

  /** Lowering quantities keeps the structural invariant. */
  lemma QuantitiesFallKeepCore(s: BookState, slots: map<nat, Order>)
    requires Core(s) && slots.Keys == s.slots.Keys
    requires forall k :: k in slots ==> slots[k] == s.slots[k].(quantity := slots[k].quantity)
    requires forall k :: k in slots ==> slots[k].quantity <= s.slots[k].quantity
    ensures Core(s.(slots := slots))
  {
    var s1 := s.(slots := slots);
    assert forall k :: k in s.slots ==> Kept(s.slots, slots, k);
    SideOkFrame(s.bids, true, s.slots, slots);
    SideOkFrame(s.asks, false, s.slots, slots);
    forall h | h in s1.slots ensures Placed(s1, h) {
      assert Placed(s, h);
    }
  }

  /** remove_filled_order on an active order linked in level p keeps the
      structural invariant. */
  lemma RemoveFilledKeepsCore(s: BookState, h: nat, isBuy: bool, p: int)
    requires Core(s) && p in Side(s, isBuy) && h in Side(s, isBuy)[p].queue
    requires h in s.slots && s.slots[h].isActive
    ensures CanRemove(s, h, isBuy, p)
    ensures Core(RemoveFilled(s, h, isBuy, p).0)
  {
    var level := Side(s, isBuy)[p];
    assert LevelOk(level, p, isBuy, s.slots);
    if s.slots[h].quantity == 0 {
      assert ActiveAt(s, h, isBuy, p);
      DetachKeepsInv(s, h, isBuy, p);
      ReleaseKeepsInv(Detach(s, h, isBuy, p), h);
    }
  }

  lemma AfterBidCore(s: BookState)
    requires Inv(s) && CanMatch(s)
    ensures Core(AfterBid(s))
  {
    var s1, bh, bp := FillFront(s), FrontBid(s), BestBidKey(s);
    QuantitiesFallKeepCore(s, s1.slots);
    RemoveFilledKeepsCore(s1, bh, true, bp);
  }

  lemma ExecuteCore(s: BookState)
    requires Inv(s) && CanMatch(s)
    ensures Core(Execute(s).0)
  {
    var s2, ah, ap := AfterBid(s), FrontAsk(s), BestAskKey(s);
    AfterBidCore(s);
    RemoveFilledKeepsCore(s2, ah, false, ap);
  }

  /** Filled orders leave the book, so every active order left has quantity. */
  lemma ExecutePositive(s: BookState)
    requires Inv(s) && CanMatch(s)
    ensures Positive(Execute(s).0.slots)
  {
    var s1, s3 := FillFront(s), Execute(s).0;
    FilledRemovedPositive(s.slots, s1.slots, s3.slots, FrontBid(s), FrontAsk(s));
  }

  /** After a fill, a zero quantity sits only at one of the two traded orders
      or at an order that already had none; once the filled traded orders are
      gone, every active order left has a positive quantity again. */
  lemma FilledRemovedPositive(before: map<nat, Order>, filled: map<nat, Order>, after: map<nat, Order>, bh: nat, ah: nat)
    requires Positive(before) && filled.Keys == before.Keys
    requires forall k :: k in filled ==> filled[k] == before[k].(quantity := filled[k].quantity)
    requires forall k :: k in filled && filled[k].quantity == 0 ==> k == bh || k == ah || before[k].quantity == 0
    requires forall k :: k in after ==> k in filled && after[k] == filled[k]
    requires bh in filled && filled[bh].quantity == 0 ==> bh !in after
    requires ah in filled && filled[ah].quantity == 0 ==> ah !in after
    ensures Positive(after)
  {
  }

  /** Each pass of the loop keeps the invariant. */
  lemma ExecuteKeepsInv(s: BookState)
    requires Inv(s) && CanMatch(s)
    ensures Inv(Execute(s).0)
  {
    ExecuteCore(s);
    ExecutePositive(s);
  }

  /** Drain runs the matching loop to its end; the result is the final book and
      the trades in the order they happened. */
  function Drain(s: BookState): (r: (BookState, seq<Trade>))
    requires Inv(s)
    ensures Inv(r.0) && !CanMatch(r.0)
    ensures r.0.version == s.version && r.0.matching == s.matching
    ensures r.0.slots.Keys <= s.slots.Keys && TotalsKept(s, r.0)
    ensures TradesPositive(r.1)
    ensures r.1 == [] <==> !CanMatch(s)
    decreases s.slots.Keys
  {
    var step := MatchStep(s);
    if step.None? then (s, [])
    else
      var next := step.value.0;
      ExecuteKeepsInv(s);
      var rest := Drain(next);
      TradesPositiveCons(step.value.1, rest.1);
      (rest.0, [step.value.1] + rest.1)
  }

  /** One pass of the loop followed by the rest of the loop is the whole loop. */
  lemma DrainStep(s: BookState)
    requires Inv(s) && CanMatch(s)
    ensures Inv(Execute(s).0)
    ensures Drain(s) == (Drain(Execute(s).0).0, [Execute(s).1] + Drain(Execute(s).0).1)
  {
    ExecuteKeepsInv(s);
  }

  /** The loop run from `start` has reached `s` with `trades` made so far; one
      more pass keeps that account. */
  lemma DrainAccount(start: BookState, s: BookState, trades: seq<Trade>)
    requires Inv(start) && Inv(s) && CanMatch(s)
    requires Drain(start) == (Drain(s).0, trades + Drain(s).1)
    ensures Inv(Execute(s).0)
    ensures Drain(start) == (Drain(Execute(s).0).0, (trades + [Execute(s).1]) + Drain(Execute(s).0).1)
  {
    DrainStep(s);
    AppendAssoc(trades, [Execute(s).1], Drain(Execute(s).0).1);
  }

  /** A loop whose guards fail at once leaves the book as it is, with no trade. */
  lemma DrainDone(s: BookState)
    requires Inv(s) && !CanMatch(s)
    ensures Drain(s) == (s, [])
  {
  }

  /** Impl::match_orders: a no-op while a pass is already in progress; otherwise
      the flag is raised, the loop drained, and the flag lowered. */
  function Match(s: BookState): (r: (BookState, seq<Trade>))
    requires Inv(s)
    ensures Inv(r.0) && r.0.version == s.version && r.0.matching == s.matching
    ensures s.matching ==> r == (s, [])
    ensures TotalsKept(s, r.0) && r.0.slots.Keys <= s.slots.Keys
    ensures TradesPositive(r.1)
  {
    if s.matching then (s, [])
    else
      InvSameStructure(s, s.(matching := true));
      var (final, trades) := Drain(s.(matching := true));
      InvSameStructure(final, final.(matching := false));
      (final.(matching := false), trades)
  }

  /** match_orders from an idle book `s`: once the loop run from the raised-flag
      book has reached `final`, where the guards fail, with `trades` made, the
      result is `final` with the flag lowered, and those trades. */
  lemma MatchAccount(s: BookState, final: BookState, trades: seq<Trade>)
    requires Inv(s) && !s.matching && Inv(s.(matching := true))
    requires Inv(final) && !CanMatch(final)
    requires Drain(s.(matching := true)) == (Drain(final).0, trades + Drain(final).1)
    ensures Match(s) == (final.(matching := false), trades)
  {
    DrainDone(final);
    AppendEmpty(trades);
  }

  /** The matching flag plays no part in the loop guards. */
  lemma CanMatchIgnoresFlag(s: BookState, b: bool)
    requires Inv(s)
    ensures Inv(s.(matching := b)) && (CanMatch(s.(matching := b)) <==> CanMatch(s))
  {
    InvSameStructure(s, s.(matching := b));
  }

  /** When match_orders returns, the book is no longer crossed, or one of the two
      best levels has an inactive order at its front (an order whose price was
      amended), which stops the loop with the book still crossed. */
  lemma MatchExit(s: BookState)
    requires Inv(s) && !s.matching
    ensures var b := Match(s).0;
            Crossed(b) ==> !b.slots[FrontBid(b)].isActive || !b.slots[FrontAsk(b)].isActive
  {
    CanMatchIgnoresFlag(s, true);
    var d := Drain(s.(matching := true)).0;
    CanMatchIgnoresFlag(d, false);
    CanMatchIff(d.(matching := false));
  }

  /** A book that is not crossed is left exactly as it was, with no trade. */
  lemma UncrossedUnchanged(s: BookState)
    requires Inv(s) && !Crossed(s)
    ensures Match(s) == (s, [])
  {
    if !s.matching {
      CanMatchIgnoresFlag(s, true);
      CanMatchIff(s.(matching := true));
    }
  }

  /** A crossed book whose two front orders are active trades at least once, and
      the first trade is between those two orders. */
  lemma CrossedTrades(s: BookState)
    requires Inv(s) && !s.matching && Crossed(s)
    requires s.slots[FrontBid(s)].isActive && s.slots[FrontAsk(s)].isActive
    ensures var trades := Match(s).1;
            && trades != []
            && trades[0].bidId == s.slots[FrontBid(s)].orderId
            && trades[0].askId == s.slots[FrontAsk(s)].orderId
  {
    var t := s.(matching := true);
    CanMatchIgnoresFlag(s, true);
    CanMatchIff(s);
    assert FrontBid(t) == FrontBid(s) && FrontAsk(t) == FrontAsk(s);
    assert MatchStep(t).Some?;
  }
}
