/** The state of OrderBook::Impl in capstone_project/order_book.cpp as a value:
    the two side indices keyed by price, the order registry, the contents of the
    order slots, the order pool, the matching flag and the version counter; the
    invariant every public operation keeps; and the level management helpers
    get_level, get_or_create_level and remove_price_level. */
module BookState {
  import opened Records
  import opened Pool
  import opened Levels
  import opened Keys

  /** Prices are ticks of 0.01: MIN_PRICE 0.01 is 1 tick, MAX_PRICE 1000000.0 is
      100000000 ticks. NO_ASK stands for numeric_limits<double>::max(), the best
      ask of a book without asks; it is above every valid price. */
  const MIN_PRICE: int := 1
  const MAX_PRICE: int := 100_000_000
  const NO_ASK: int := MAX_PRICE + 1
  const MAX_ORDER_QUANTITY: nat := 1_000_000

  datatype Option<T> = None | Some(value: T)

  /** What add_order reports on its diagnostic channel, as a result. */
  datatype Status = Accepted | InvalidId | InvalidPrice | InvalidQuantity | DuplicateId

  /** One MATCH line of match_orders: the two order ids, quantity and price. */
  datatype Trade = Trade(bidId: nat, askId: nat, quantity: nat, price: int)

  /** bids_ and asks_ map a price to its level; order_lookup_ maps an order id to
      the pool slot of its order; slots holds the order stored in each occupied
      slot of order_pool_. */
  datatype BookState = BookState(
    bids: map<int, Level>,
    asks: map<int, Level>,
    lookup: map<nat, nat>,
    slots: map<nat, Order>,
    pool: PoolState,
    matching: bool,
    version: nat)

  function EmptyBook(): (r: BookState)
    ensures r.bids == map[] && r.asks == map[] && r.slots == map[] && r.lookup == map[]
    ensures r.version == 0 && !r.matching
    ensures PoolOk(r.pool) && forall h :: !Outstanding(r.pool, h)
  {
    BookState(map[], map[], map[], map[], InitialPool(), false, 0)
  }

  predicate ValidPrice(p: int)
  {
    MIN_PRICE <= p <= MAX_PRICE
  }

  predicate ValidQuantity(q: nat)
  {
    1 <= q <= MAX_ORDER_QUANTITY
  }

  /** The field checks shared by add_order and amend_order, in their order:
      identifier, then price, then quantity. */
  function CheckFields(id: nat, price: int, qty: nat): (st: Status)
    ensures st == Accepted <==> id != 0 && ValidPrice(price) && ValidQuantity(qty)
    ensures st == InvalidId <==> id == 0
    ensures st == InvalidPrice <==> id != 0 && !ValidPrice(price)
    ensures st == InvalidQuantity <==> id != 0 && ValidPrice(price) && !ValidQuantity(qty)
    ensures st != DuplicateId
  {
    if id == 0 then InvalidId
    else if price < MIN_PRICE || price > MAX_PRICE then InvalidPrice
    else if qty == 0 || qty > MAX_ORDER_QUANTITY then InvalidQuantity
    else Accepted
  }

  function Side(s: BookState, isBuy: bool): map<int, Level>
  {
    if isBuy then s.bids else s.asks
  }

  function WithSide(s: BookState, isBuy: bool, side: map<int, Level>): (r: BookState)
    ensures Side(r, isBuy) == side && Side(r, !isBuy) == Side(s, !isBuy)
  {
    if isBuy then s.(bids := side) else s.(asks := side)
  }

  /** Store level l at price p of one side. */
  function SetLevel(s: BookState, isBuy: bool, p: int, l: Level): BookState
  {
    WithSide(s, isBuy, Side(s, isBuy)[p := l])
  }

  /** Impl::get_level: the level at a price of one side, if there is one. */
  function GetLevel(s: BookState, price: int, isBuy: bool): (r: Option<Level>)
    ensures r.Some? <==> price in Side(s, isBuy)
    ensures r.Some? ==> r.value == Side(s, isBuy)[price]
  {
    if price in Side(s, isBuy) then Some(Side(s, isBuy)[price]) else None
  }

  /** Impl::get_or_create_level: an existing level is left as it is; otherwise an
      empty level at that price is installed. */
  function GetOrCreateLevel(s: BookState, price: int, isBuy: bool): (r: BookState)
    ensures price in Side(r, isBuy) && Side(r, !isBuy) == Side(s, !isBuy)
    ensures price in Side(s, isBuy) ==> r == s
    ensures price !in Side(s, isBuy) ==> Side(r, isBuy) == Side(s, isBuy)[price := NewLevel(price)]
    ensures r.lookup == s.lookup && r.slots == s.slots && r.pool == s.pool
    ensures r.version == s.version && r.matching == s.matching
  {
    if price in Side(s, isBuy) then s
    else SetLevel(s, isBuy, price, NewLevel(price))
  }

  /** Impl::remove_price_level: drop the level at a price of one side, if any. */
  function RemovePriceLevel(s: BookState, price: int, isBuy: bool): (r: BookState)
    ensures Side(r, isBuy) == Side(s, isBuy) - {price} && Side(r, !isBuy) == Side(s, !isBuy)
    ensures r.lookup == s.lookup && r.slots == s.slots && r.pool == s.pool
    ensures r.version == s.version && r.matching == s.matching
  {
    if price in Side(s, isBuy) then WithSide(s, isBuy, Side(s, isBuy) - {price}) else s
  }

  // ---------------------------------------------------------------------------
  // The invariant

  /** A level held in a side index at price p: it is active, its queue is
      non-empty and free of repeats, its count is the queue length, every queued
      order is stored, has this price and this side, and the aggregate is at
      least the sum of the queued orders' current quantities (fills lower the
      quantities but not the aggregate). */
  ghost predicate LevelOk(l: Level, p: int, isBuy: bool, slots: map<nat, Order>)
  {
    && l.price == p
    && l.isActive
    && l.queue != []
    && l.orderCount == |l.queue|
    && NoDuplicates(l.queue)
    && (forall k :: 0 <= k < |l.queue| ==>
          l.queue[k] in slots && slots[l.queue[k]].price == p && slots[l.queue[k]].isBuy == isBuy)
    && l.totalQuantity >= QueueQty(l.queue, slots)
  }

  ghost predicate SideOk(side: map<int, Level>, isBuy: bool, slots: map<nat, Order>)
  {
    forall p :: p in side ==> LevelOk(side[p], p, isBuy, slots)
  }

  /** Every stored order has a valid price and is queued in the level of its side
      and price. */
  ghost predicate Placed(s: BookState, h: nat)
    requires h in s.slots
  {
    var o := s.slots[h];
    && ValidPrice(o.price)
    && o.price in Side(s, o.isBuy)
    && h in Side(s, o.isBuy)[o.price].queue
  }

  /** Registry entries point at stored orders carrying that id; every active order
      is registered under its own id. */
  ghost predicate RegistryOk(lookup: map<nat, nat>, slots: map<nat, Order>)
  {
    && (forall id :: id in lookup ==> lookup[id] in slots && slots[lookup[id]].orderId == id)
    && (forall h :: h in slots && slots[h].isActive ==>
          slots[h].orderId in lookup && lookup[slots[h].orderId] == h)
  }

  /** The structural part of the invariant (it also holds in the middle of a
      matching step, after the fill and before the filled orders are removed). */
  ghost predicate Core(s: BookState)
  {
    && PoolOk(s.pool)
    && (forall h :: h in s.slots ==> Outstanding(s.pool, h))
    && SideOk(s.bids, true, s.slots)
    && SideOk(s.asks, false, s.slots)
    && (forall h :: h in s.slots ==> Placed(s, h))
    && RegistryOk(s.lookup, s.slots)
  }

  /** Active orders have something left to trade. */
  ghost predicate Positive(slots: map<nat, Order>)
  {
    forall h :: h in slots && slots[h].isActive ==> slots[h].quantity > 0
  }

  ghost predicate Inv(s: BookState)
  {
    Core(s) && Positive(s.slots)
  }

  lemma EmptyBookInv()
    ensures Inv(EmptyBook())
  {
  }

  // ---------------------------------------------------------------------------
  // Helper lemmas for the invariant

  /** The invariant only depends on the side indices, the registry, the slots and
      the pool: not on the matching flag or the version. */
  lemma InvSameStructure(s: BookState, t: BookState)
    requires t.bids == s.bids && t.asks == s.asks && t.lookup == s.lookup
    requires t.slots == s.slots && t.pool == s.pool
    ensures Core(s) ==> Core(t)
    ensures Inv(s) ==> Inv(t)
  {
    if Core(s) {
      forall h | h in t.slots ensures Placed(t, h) {
        assert Placed(s, h);
      }
    }
  }

  /** Order k keeps its side and price and does not gain quantity. */
  ghost predicate Kept(s1: map<nat, Order>, s2: map<nat, Order>, k: nat)
    requires k in s1
  {
    k in s2 && s2[k].price == s1[k].price && s2[k].isBuy == s1[k].isBuy && s2[k].quantity <= s1[k].quantity
  }

  lemma LevelOkFrame(l: Level, p: int, isBuy: bool, s1: map<nat, Order>, s2: map<nat, Order>)
    requires LevelOk(l, p, isBuy, s1)
    requires forall k :: 0 <= k < |l.queue| ==> Kept(s1, s2, l.queue[k])
    ensures LevelOk(l, p, isBuy, s2)
  {
    QueueQtyMono(l.queue, s1, s2);
  }

  /** A side stays well formed when no queued order changes side or price or gains quantity. */
  lemma SideOkFrame(side: map<int, Level>, isBuy: bool, s1: map<nat, Order>, s2: map<nat, Order>)
    requires SideOk(side, isBuy, s1)
    requires forall p, k :: p in side && 0 <= k < |side[p].queue| ==> Kept(s1, s2, side[p].queue[k])
    ensures SideOk(side, isBuy, s2)
  {
    forall p | p in side ensures LevelOk(side[p], p, isBuy, s2) {
      LevelOkFrame(side[p], p, isBuy, s1, s2);
    }
  }

  /** In a well-formed book, the orders queued in one level all sit at that level's
      price and side, so a slot is queued in at most one level. */
  lemma QueuedAt(s: BookState, isBuy: bool, p: int, k: nat)
    requires Core(s) && p in Side(s, isBuy) && 0 <= k < |Side(s, isBuy)[p].queue|
    ensures var h := Side(s, isBuy)[p].queue[k];
            h in s.slots && s.slots[h].price == p && s.slots[h].isBuy == isBuy
  {
    assert LevelOk(Side(s, isBuy)[p], p, isBuy, s.slots);
  }

  /** The best level's price, as the loop of match_orders reads it from the key. */
  function BestBidKey(s: BookState): int
    requires s.bids != map[]
  {
    MaxKey(s.bids.Keys)
  }

  function BestAskKey(s: BookState): int
    requires s.asks != map[]
  {
    MinKey(s.asks.Keys)
  }

  /** Both sides are non-empty and the best bid is at or above the best ask. */
  ghost predicate Crossed(s: BookState)
  {
    s.bids != map[] && s.asks != map[] && BestBidKey(s) >= BestAskKey(s)
  }
}
