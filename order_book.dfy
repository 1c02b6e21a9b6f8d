/** OrderBook of capstone_project/order_book.cpp as the source runs it: an
    object whose fields (the two side indices, the order registry, the order
    slots, the order pool, the matching flag and the version) its methods
    update in place. Every method is proved to leave the object in exactly the
    state, and to return exactly the results, of the functions in Operations,
    Matching and Queries, and to keep the invariant Inv. */
module Book {
  import opened Records
  import opened Pool
  import opened Levels
  import opened Keys
  import opened BookState
  import opened Steps
  import opened Matching
  import opened Operations
  import opened Queries
  import opened Collections
  import Spec = BookState

  class OrderBook {
    var bids: map<int, Level>
    var asks: map<int, Level>
    var lookup: map<nat, nat>
    var slots: map<nat, Order>
    const orderPool: SlotPool
    var matching: bool
    var version: nat

    /** The object's fields as a book state. */
    ghost function State(): BookState
      reads this, orderPool
    {
      BookState(bids, asks, lookup, slots, orderPool.State(), matching, version)
    }

    /** The class invariant: Inv, together with its consequence that every
        registered order can be unlinked (InvLinkedId), spelled out. */
    ghost predicate Valid()
      reads this, orderPool
    {
      Inv(State()) && forall id :: LinkedId(State(), id)
    }

    /** OrderBook(): empty sides and registry, a fresh order pool, version 0. */
    constructor ()
      ensures State() == EmptyBook() && Valid()
      ensures fresh(orderPool)
    {
      bids, asks, lookup, slots := map[], map[], map[], map[];
      matching, version := false, 0;
      orderPool := new SlotPool();
      new;
      EmptyBookInv();
      InvAllLinked(State());
    }

    // -------------------------------------------------------------------------
    // Level management

    /** Store level l at price p of one side. */
    method PutLevel(isBuy: bool, p: int, l: Level)
      modifies this
      ensures State() == SetLevel(old(State()), isBuy, p, l)
    {
      if isBuy {
        bids := bids[p := l];
      } else {
        asks := asks[p := l];
      }
    }

    /** Impl::get_or_create_level: install an empty level when the price has none. */
    method GetOrCreateLevel(price: int, isBuy: bool)
      modifies this
      ensures State() == Spec.GetOrCreateLevel(old(State()), price, isBuy)
      ensures price in Side(State(), isBuy)
    {
      if isBuy {
        if price !in bids {
          bids := bids[price := NewLevel(price)];
        }
      } else {
        if price !in asks {
          asks := asks[price := NewLevel(price)];
        }
      }
    }

    /** Impl::remove_price_level: erase the level at a price of one side, if any. */
    method RemovePriceLevel(price: int, isBuy: bool)
      modifies this
      ensures State() == Spec.RemovePriceLevel(old(State()), price, isBuy)
    {
      if isBuy {
        if price in bids {
          bids := bids - {price};
        }
      } else {
        if price in asks {
          asks := asks - {price};
        }
      }
    }

    /** The unlink step of cancel_order and amend_order: get_level, then
        remove_order on the level when it exists, and remove_price_level once
        the level is empty. Returns the order as remove_order leaves it. */
    method UnlinkOrder(h: nat) returns (o': Order)
      requires LinkedAt(State(), h)
      modifies this
      ensures (State(), o') == RemoveOrder(old(State()), h)
    {
      var o := slots[h];
      var side := if o.isBuy then bids else asks;
      o' := o;
      if o.price in side {
        var l;
        l, o' := Unlink(side[o.price], h, o).0, Unlink(side[o.price], h, o).1;
        PutLevel(o.isBuy, o.price, l);
        if IsEmpty(l) {
          RemovePriceLevel(l.price, o.isBuy);
        }
      }
    }

    // -------------------------------------------------------------------------
    // Matching

    /** Impl::remove_filled_order: a filled order is unlinked from level p, its
        registry entry erased and its slot released; an emptied level is erased
        and reported. */
    method RemoveFilledOrder(h: nat, isBuy: bool, p: int) returns (removed: bool)
      requires CanRemove(State(), h, isBuy, p)
      modifies this, orderPool
      ensures (State(), removed) == RemoveFilled(old(State()), h, isBuy, p)
    {
      var o := slots[h];
      if o.quantity == 0 {
        var level := if isBuy then bids[p] else asks[p];
        var l := Unlink(level, h, o).0;
        PutLevel(isBuy, p, l);
        slots := slots - {h};
        lookup := lookup - {o.orderId};
        orderPool.Deallocate(At(h));
        if IsEmpty(l) {
          if isBuy {
            bids := bids - {p};
          } else {
            asks := asks - {p};
          }
          assert Side(State(), isBuy) == Side(old(State()), isBuy) - {p};
          return true;
        }
      }
      return false;
    }

    /** Impl::match_orders: unless a pass is already in progress, trade the
        front orders of the two best levels while the book is crossed and the
        guards hold, removing filled orders after each trade. The trades are
        the MATCH lines, in order. */
    method MatchOrders() returns (trades: seq<Trade>)
      requires Inv(State())
      modifies this, orderPool
      ensures (State(), trades) == Match(old(State()))
    {
      trades := [];
      if matching {
        return;
      }
      matching := true;
      ghost var start := State();
      InvSameStructure(old(State()), start);
      var matched := true;
      AppendEmpty(Drain(start).1);
      while matched && bids != map[] && asks != map[]
        invariant Inv(State()) && matching && matched
        invariant State().version == start.version
        invariant Drain(start) == (Drain(State()).0, trades + Drain(State()).1)
        decreases slots.Keys
      {
        ghost var before := State();
        matched := false;
        var ok, bh, ah, bp, ap := CheckFronts();
        if !ok {
          break;
        }
        ExecuteIsTradeAt(before);
        var trade, bidRemoved, askRemoved := TradeFronts(bh, ah, bp, ap);
        DrainAccount(start, before, trades);
        trades := trades + [trade];
        matched := true;
        if bidRemoved || askRemoved {
          continue;
        }
      }
      assert !CanMatch(State());
      MatchAccount(old(State()), State(), trades);
      matching := false;
    }

    /** The guards of one pass of match_orders, in order: the best bid key at
        or above the best ask key, both best levels active, both queues
        non-empty, both front orders active. When they all hold, the keys and
        front handles of the pass are returned with ok. */
    method CheckFronts() returns (ok: bool, bh: nat, ah: nat, bp: int, ap: int)
      requires Inv(State()) && bids != map[] && asks != map[]
      ensures ok <==> CanMatch(State())
      ensures ok ==> && bp == BestBidKey(State()) && ap == BestAskKey(State())
                     && bh == FrontBid(State()) && ah == FrontAsk(State())
    {
      bh, ah := 0, 0;
      bp := MaxKey(bids.Keys);
      ap := MinKey(asks.Keys);
      if bp < ap {
        return false, bh, ah, bp, ap;
      }
      var bidLevel := bids[bp];
      var askLevel := asks[ap];
      if !bidLevel.isActive || !askLevel.isActive {
        return false, bh, ah, bp, ap;
      }
      if bidLevel.queue == [] || askLevel.queue == [] {
        return false, bh, ah, bp, ap;
      }
      bh := bidLevel.queue[0];
      ah := askLevel.queue[0];
      ok := slots[bh].isActive && slots[ah].isActive;
    }

    /** One pass of match_orders once its guards have passed: the front orders
        trade min(bid, ask) at the price of the earlier one, both quantities
        fall by it, and each filled order is removed (bid first). The flags say
        whether each best level was dropped. */
    method TradeFronts(bh: nat, ah: nat, bp: int, ap: int) returns (trade: Trade, bidRemoved: bool, askRemoved: bool)
      requires CanTrade(State(), bh, ah, bp, ap)
      modifies this, orderPool
      ensures (State(), trade) == TradeAt(old(State()), bh, ah, bp, ap)
      ensures bidRemoved <==> bp !in bids
      ensures askRemoved <==> ap !in asks
    {
      ghost var before := State();
      var bidOrder := slots[bh];
      var askOrder := slots[ah];
      var q := Min(bidOrder.quantity, askOrder.quantity);
      var price := if bidOrder.timestampNs <= askOrder.timestampNs then bidOrder.price else askOrder.price;
      trade := Trade(bidOrder.orderId, askOrder.orderId, q, price);
      slots := slots[bh := bidOrder.(quantity := bidOrder.quantity - q)];
      slots := slots[ah := askOrder.(quantity := askOrder.quantity - q)];
      assert slots == Take(Take(before.slots, bh, q), ah, q);
      ghost var filled := Filled(before, bh, ah, q);
      assert State() == filled;
      bidRemoved := RemoveFilledOrder(bh, true, bp);
      ghost var afterBid := RemoveFilled(filled, bh, true, bp).0;
      assert State() == afterBid;
      askRemoved := RemoveFilledOrder(ah, false, ap);
      assert State() == RemoveFilled(afterBid, ah, false, ap).0;
    }

    // -------------------------------------------------------------------------
    // The state changes of the public operations, once their checks have passed

    /** The body of add_order after its checks: a slot from the pool, the order
        copied into it with null links and marked active, registered under its
        id, linked at the tail of its level (created when absent), and the
        version bumped. */
    method PlaceOrder(o: Order)
      modifies this, orderPool
      ensures State() == Accept(old(State()), o)
    {
      var h := orderPool.Allocate();
      var newOrder := Stored(o);
      lookup := lookup[o.orderId := h];
      slots := slots[h := newOrder];
      GetOrCreateLevel(o.price, o.isBuy);
      var level := if o.isBuy then bids[o.price] else asks[o.price];
      PutLevel(o.isBuy, o.price, Append(level, h, newOrder));
      version := version + 1;
    }

    /** The end of cancel_order for an active order: unlink it from its level
        (erased when emptied), release its slot and bump the version. */
    method ReleaseOrder(h: nat)
      requires LinkedAt(State(), h)
      modifies this, orderPool
      ensures var s2 := RemoveOrder(old(State()), h).0;
              State() == s2.(slots := s2.slots - {h}, pool := Released(s2.pool, At(h)), version := old(version) + 1)
    {
      var o' := UnlinkOrder(h);
      slots := slots - {h};
      orderPool.Deallocate(At(h));
      version := version + 1;
    }

    /** The price-change path of amend_order: unlink the order, give it the new
        price and quantity, and link it at the tail of the new price's level
        (created when absent). */
    method MoveOrder(h: nat, newPrice: int, newQuantity: nat)
      requires LinkedAt(State(), h)
      modifies this
      ensures State() == Reprice(old(State()), h, newPrice, newQuantity)
    {
      var isBuy := slots[h].isBuy;
      var o1 := UnlinkOrder(h);
      var moved := o1.(price := newPrice, quantity := newQuantity);
      slots := slots[h := moved];
      GetOrCreateLevel(newPrice, isBuy);
      var level := if isBuy then bids[newPrice] else asks[newPrice];
      PutLevel(isBuy, newPrice, Append(level, h, moved));
    }

    /** The same-price path of amend_order: when the order's level exists, its
        aggregate becomes total - current + newQuantity and the order takes the
        new quantity; otherwise nothing changes and false is reported. */
    method ResizeOrder(h: nat, newQuantity: nat) returns (found: bool)
      requires LinkedAt(State(), h) && slots[h].isActive
      modifies this
      ensures found <==> Requantify(old(State()), h, newQuantity).Some?
      ensures found ==> State() == Requantify(old(State()), h, newQuantity).value
      ensures !found ==> State() == old(State())
    {
      var o := slots[h];
      var side := if o.isBuy then bids else asks;
      if o.price !in side {
        return false;
      }
      var level := side[o.price];
      PutLevel(o.isBuy, o.price, level.(totalQuantity := level.totalQuantity - o.quantity + newQuantity));
      slots := slots[h := o.(quantity := newQuantity)];
      return true;
    }

    // -------------------------------------------------------------------------
    // Public operations

    /** OrderBook::add_order: the checks in order (id, price, quantity,
        duplicate), then the order is placed and matching runs. */
    method AddOrder(o: Order) returns (st: Status, trades: seq<Trade>)
      requires Valid()
      modifies this, orderPool
      ensures Valid()
      ensures (State(), st, trades) == Insert(old(State()), o)
    {
      trades := [];
      if o.orderId == 0 {
        return InvalidId, trades;
      }
      if o.price < MIN_PRICE || o.price > MAX_PRICE {
        return InvalidPrice, trades;
      }
      if o.quantity == 0 || o.quantity > MAX_ORDER_QUANTITY {
        return InvalidQuantity, trades;
      }
      if o.orderId in lookup {
        return DuplicateId, trades;
      }
      AcceptKeepsInv(State(), o);
      PlaceOrder(o);
      trades := MatchOrders();
      st := Accepted;
      InvAllLinked(State());
    }

    /** cancel_order on any book where the order registered under id can be
        unlinked: refuse id 0 and unknown ids; erase the registry entry; an
        inactive order then reports false. An active one is unlinked, its slot
        released and the version bumped. */
    method CancelOrderBody(id: nat) returns (ok: bool)
      requires LinkedId(State(), id)
      modifies this, orderPool
      ensures (State(), ok) == Cancel(old(State()), id)
    {
      if id == 0 {
        return false;
      }
      if id !in lookup {
        return false;
      }
      var h := lookup[id];
      lookup := lookup - {id};
      if !slots[h].isActive {
        return false;
      }
      ReleaseOrder(h);
      return true;
    }

    /** OrderBook::cancel_order, keeping the class invariant. */
    method CancelOrder(id: nat) returns (ok: bool)
      requires Valid()
      modifies this, orderPool
      ensures Valid()
      ensures (State(), ok) == Cancel(old(State()), id)
    {
      CancelKeepsInv(State(), id);
      ok := CancelOrderBody(id);
      InvAllLinked(State());
    }

    /** amend_order on any book where the order registered under id can be
        unlinked: the field checks of add_order, then an unknown or inactive
        order is refused. A new price moves the order to the tail of the new
        price's level; the same price resizes it in place. Success bumps the
        version. */
    method AmendOrderBody(id: nat, newPrice: int, newQuantity: nat) returns (ok: bool)
      requires LinkedId(State(), id)
      modifies this, orderPool
      ensures (State(), ok) == Amend(old(State()), id, newPrice, newQuantity)
    {
      if id == 0 {
        return false;
      }
      if newPrice < MIN_PRICE || newPrice > MAX_PRICE {
        return false;
      }
      if newQuantity == 0 || newQuantity > MAX_ORDER_QUANTITY {
        return false;
      }
      if id !in lookup {
        return false;
      }
      var h := lookup[id];
      if !slots[h].isActive {
        return false;
      }
      if slots[h].price != newPrice {
        MoveOrder(h, newPrice, newQuantity);
      } else {
        var found := ResizeOrder(h, newQuantity);
        if !found {
          return false;
        }
      }
      version := version + 1;
      return true;
    }

    /** OrderBook::amend_order, keeping the class invariant. */
    method AmendOrder(id: nat, newPrice: int, newQuantity: nat) returns (ok: bool)
      requires Valid()
      modifies this, orderPool
      ensures Valid()
      ensures (State(), ok) == Amend(old(State()), id, newPrice, newQuantity)
    {
      AmendKeepsInv(State(), id, newPrice, newQuantity);
      ok := AmendOrderBody(id, newPrice, newQuantity);
      InvAllLinked(State());
    }

    /** OrderBook::get_best_bid: 0 on an empty bid side, else the price of the
        highest bid level. */
    method GetBestBid() returns (price: int)
      ensures price == BestBid(State())
    {
      if bids == map[] {
        return 0;
      }
      price := bids[MaxKey(bids.Keys)].price;
    }

    /** OrderBook::get_best_ask: the sentinel NO_ASK on an empty ask side, else
        the price of the lowest ask level. */
    method GetBestAsk() returns (price: int)
      ensures price == BestAsk(State())
    {
      if asks == map[] {
        return NO_ASK;
      }
      price := asks[MinKey(asks.Keys)].price;
    }

    /** OrderBook::get_spread: 0 when the best ask is the sentinel, else best
        ask - best bid. */
    method GetSpread() returns (spread: int)
      ensures spread == Spread(State())
    {
      var ask := GetBestAsk();
      if ask == NO_ASK {
        return 0;
      }
      var bid := GetBestBid();
      spread := ask - bid;
    }

    method GetVersion() returns (v: nat)
      ensures v == Version(State())
    {
      v := version;
    }

    /** OrderBook::get_order_count: the number of registry entries. */
    method GetOrderCount() returns (n: nat)
      ensures n == OrderCount(State())
    {
      n := |lookup|;
    }

    method GetBidLevels() returns (n: nat)
      ensures n == BidLevels(State())
    {
      n := |bids|;
    }

    method GetAskLevels() returns (n: nat)
      ensures n == AskLevels(State())
    {
      n := |asks|;
    }

    /** OrderBook::get_snapshot: the top `depth` levels of each side as
        (price, aggregate) pairs, best first. */
    method GetSnapshot(depth: nat) returns (bidsOut: seq<PriceLevel>, asksOut: seq<PriceLevel>)
      ensures (bidsOut, asksOut) == Snapshot(State(), depth)
    {
      bidsOut := CollectLevels(bids, true, depth);
      asksOut := CollectLevels(asks, false, depth);
    }

    /** One loop of get_snapshot: walk the side from its best level, at most
        `depth` steps, copying each level's price and aggregate. */
    static method CollectLevels(side: map<int, Level>, isBuy: bool, depth: nat) returns (out: seq<PriceLevel>)
      ensures out == TopLevels(side, isBuy, depth)
    {
      out := [];
      var rest := side;
      var i := 0;
      AppendEmpty(TopLevels(side, isBuy, depth));
      while i < depth && rest != map[]
        invariant i <= depth
        invariant out + TopLevels(rest, isBuy, depth - i) == TopLevels(side, isBuy, depth)
        decreases depth - i
      {
        var k := BestKey(rest.Keys, isBuy);
        TopLevelsCons(rest, isBuy, depth - i);
        var level := DefaultPriceLevel();
        level := level.(price := rest[k].price);
        level := level.(totalQuantity := rest[k].totalQuantity);
        AppendAssoc(out, [level], TopLevels(rest - {k}, isBuy, depth - i - 1));
        out := out + [level];
        rest := rest - {k};
        i := i + 1;
      }
    }
  }

  /** Every registered order of a well-formed book can be unlinked. */
  lemma InvAllLinked(s: BookState)
    requires Inv(s)
    ensures forall id :: LinkedId(s, id)
  {
    forall id | true ensures LinkedId(s, id) {
      InvLinkedId(s, id);
    }
  }
}
