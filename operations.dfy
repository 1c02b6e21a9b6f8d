/** The mutating public operations of OrderBook in
    capstone_project/order_book.cpp (add_order, cancel_order, amend_order) as
    functions on the book state, written step by step as the source performs
    them, with the proofs that each keeps the invariant and states what it
    promises. */
module Operations {
  import opened Records
  import opened Pool
  import opened Levels
  import opened Keys
  import opened BookState
  import opened Steps
  import opened Matching

  /** The order add_order stores: `*new_order = o` copies the data and the active
      flag, then the links are cleared and the order is marked active. */
  function Stored(o: Order): (r: Order)
    ensures SameData(r, o) && r.isActive && r.next == Null && r.prev == Null
  {
    CopyOrder(o).(next := Null, prev := Null, isActive := true)
  }

  /** What unlinking the order in slot h needs: when the level of its price
      exists, it carries that price, queues the order, covers it in its
      aggregate and counts it. */
  ghost predicate LinkedAt(s: BookState, h: nat)
  {
    && h in s.slots
    && var o := s.slots[h];
       o.price in Side(s, o.isBuy) ==>
         && Side(s, o.isBuy)[o.price].price == o.price
         && (o.isActive ==>
               && h in Side(s, o.isBuy)[o.price].queue
               && o.quantity <= Side(s, o.isBuy)[o.price].totalQuantity
               && Side(s, o.isBuy)[o.price].orderCount >= 1)
  }

  /** The order registered under id, if any, can be unlinked: what cancel_order
      and amend_order rely on (InvLinkedId derives it from the invariant). */
  ghost predicate LinkedId(s: BookState, id: nat)
  {
    id in s.lookup ==> LinkedAt(s, s.lookup[id])
  }

  /** The unlink step shared by cancel_order and amend_order: look the order's
      level up; when it exists, remove_order unlinks the order (an inactive one
      is left alone) and remove_price_level erases the level once it is empty.
      The result pairs the book and the order as it now stands. */
  function RemoveOrder(s: BookState, h: nat): (r: (BookState, Order))
    requires LinkedAt(s, h)
    ensures r.0.slots == s.slots && r.0.lookup == s.lookup && r.0.pool == s.pool
    ensures r.0.version == s.version && r.0.matching == s.matching
    ensures var o := s.slots[h];
            && Side(r.0, !o.isBuy) == Side(s, !o.isBuy)
            && (o.price !in Side(s, o.isBuy) ==> r == (s, o))
            && (o.price in Side(s, o.isBuy) ==>
                  var u := Unlink(Side(s, o.isBuy)[o.price], h, o);
                  && r.1 == u.1
                  && Side(r.0, o.isBuy) == (if IsEmpty(u.0) then Side(s, o.isBuy) - {o.price}
                                            else Side(s, o.isBuy)[o.price := u.0]))
  {
    var o := s.slots[h];
    match GetLevel(s, o.price, o.isBuy)
    case None => (s, o)
    case Some(level) =>
      var (l, o') := Unlink(level, h, o);
      var t := SetLevel(s, o.isBuy, o.price, l);
      (if IsEmpty(l) then RemovePriceLevel(t, l.price, o.isBuy) else t, o')
  }

  /** The link step shared by add_order and amend_order: order o is written to
      slot h, get_or_create_level finds or installs the level of its side and
      price, and add_order links it at the tail. */
  function Relink(s: BookState, h: nat, o: Order): (r: BookState)
    ensures r.slots == s.slots[h := o] && r.lookup == s.lookup && r.pool == s.pool
    ensures r.version == s.version && r.matching == s.matching
    ensures Side(r, !o.isBuy) == Side(s, !o.isBuy)
    ensures Side(r, o.isBuy) == Side(s, o.isBuy)[o.price := Append(LevelAt(s, o.isBuy, o.price), h, o)]
  {
    var s1 := GetOrCreateLevel(s.(slots := s.slots[h := o]), o.price, o.isBuy);
    SetLevel(s1, o.isBuy, o.price, Append(Side(s1, o.isBuy)[o.price], h, o))
  }

  /** add_order once its checks have passed, before matching: take a slot from the
      pool, store the order there, register it, link it at the tail of the level
      of its side and price (created when absent) and bump the version. */
  function Accept(s: BookState, o: Order): (r: BookState)
    ensures var (pool, h) := Allocated(s.pool);
            && r.slots == s.slots[h := Stored(o)] && r.lookup == s.lookup[o.orderId := h]
            && r.pool == pool && r.version == s.version + 1 && r.matching == s.matching
            && Side(r, !o.isBuy) == Side(s, !o.isBuy)
            && Side(r, o.isBuy) == Side(s, o.isBuy)[o.price := Append(LevelAt(s, o.isBuy, o.price), h, Stored(o))]
  {
    var (pool, h) := Allocated(s.pool);
    Relink(s.(pool := pool, lookup := s.lookup[o.orderId := h]), h, Stored(o)).(version := s.version + 1)
  }

  /** The outcome add_order reports for an order: the first failing field check,
      then a duplicate id, else acceptance. */
  function InsertStatus(s: BookState, o: Order): (st: Status)
    ensures st == Accepted <==> && o.orderId != 0 && ValidPrice(o.price) && ValidQuantity(o.quantity)
                                && o.orderId !in s.lookup
    ensures st == DuplicateId <==> && o.orderId != 0 && ValidPrice(o.price) && ValidQuantity(o.quantity)
                                   && o.orderId in s.lookup
  {
    var st := CheckFields(o.orderId, o.price, o.quantity);
    if st != Accepted then st
    else if o.orderId in s.lookup then DuplicateId
    else Accepted
  }

  /** OrderBook::add_order: a rejected order changes nothing; an accepted one is
      stored, linked and counted, and matching runs. The result is the book, the
      outcome and the trades matching reported. */
  function Insert(s: BookState, o: Order): (r: (BookState, Status, seq<Trade>))
    requires Inv(s)
    ensures Inv(r.0)
    ensures r.1 == InsertStatus(s, o)
    ensures r.1 != Accepted ==> r.0 == s && r.2 == []
    ensures r.1 == Accepted ==> && r.0.version == s.version + 1
                                && r.0.matching == s.matching
                                && TradesPositive(r.2)
    ensures r.1 == Accepted ==> Inv(Accept(s, o)) && (r.0, r.2) == Match(Accept(s, o))
  {
    var st := InsertStatus(s, o);
    if st != Accepted then (s, st, [])
    else
      AcceptKeepsInv(s, o);
      var (r, trades) := Match(Accept(s, o));
      (r, Accepted, trades)
  }

  /** OrderBook::cancel_order. An id of 0 or an unknown id changes nothing. The
      registry entry is erased first; an inactive order then reports false and
      stays where it is. An active order is unlinked from its level (erased when
      emptied), its slot released and the version bumped. */
  function Cancel(s: BookState, id: nat): (r: (BookState, bool))
    requires LinkedId(s, id)
    ensures r.1 <==> id != 0 && id in s.lookup && s.slots[s.lookup[id]].isActive
    ensures id == 0 || id !in s.lookup ==> r.0 == s
    ensures id != 0 && id in s.lookup && !r.1 ==> r.0 == s.(lookup := s.lookup - {id})
    ensures r.1 ==> && r.0.lookup == s.lookup - {id}
                    && r.0.slots == s.slots - {s.lookup[id]}
                    && r.0.pool == Released(s.pool, At(s.lookup[id]))
                    && r.0.version == s.version + 1
                    && r.0.matching == s.matching
    ensures r.1 ==> && LinkedAt(s, s.lookup[id])
                    && r.0.bids == RemoveOrder(s, s.lookup[id]).0.bids
                    && r.0.asks == RemoveOrder(s, s.lookup[id]).0.asks
  {
    if id == 0 then (s, false)
    else if id !in s.lookup then (s, false)
    else
      var h := s.lookup[id];
      var s1 := s.(lookup := s.lookup - {id});
      if !s.slots[h].isActive then (s1, false)
      else
        var s2 := RemoveOrder(s1, h).0;
        (s2.(slots := s2.slots - {h}, pool := Released(s2.pool, At(h)), version := s.version + 1), true)
  }

  /** The price-change path of amend_order, without the version bump: the order
      is unlinked from its old level when that level exists (which marks it
      inactive, and erases the level when emptied), takes the new price and
      quantity, and is linked at the tail of the level of the new price. */
  function Reprice(s: BookState, h: nat, p: int, q: nat): (r: BookState)
    requires LinkedAt(s, h)
    ensures r.lookup == s.lookup && r.slots.Keys == s.slots.Keys
    ensures r.pool == s.pool && r.version == s.version && r.matching == s.matching
  {
    var (s1, o1) := RemoveOrder(s, h);
    Relink(s1, h, o1.(price := p, quantity := q))
  }

  /** The same-price path of amend_order, without the version bump: the level
      aggregate becomes total - current + q and the order's quantity q. */
  function Requantify(s: BookState, h: nat, q: nat): (r: Option<BookState>)
    requires LinkedAt(s, h) && s.slots[h].isActive
    ensures r.None? <==> s.slots[h].price !in Side(s, s.slots[h].isBuy)
    ensures r.Some? ==> && r.value.lookup == s.lookup && r.value.pool == s.pool
                        && r.value.version == s.version && r.value.matching == s.matching
    ensures r.Some? ==> var o := s.slots[h];
                        var l := Side(s, o.isBuy)[o.price];
                        && r.value.slots == s.slots[h := o.(quantity := q)]
                        && Side(r.value, !o.isBuy) == Side(s, !o.isBuy)
                        && Side(r.value, o.isBuy) ==
                             Side(s, o.isBuy)[o.price := l.(totalQuantity := l.totalQuantity - o.quantity + q)]
  {
    var o := s.slots[h];
    match GetLevel(s, o.price, o.isBuy)
    case None => None
    case Some(level) =>
      var level' := level.(totalQuantity := level.totalQuantity - o.quantity + q);
      Some(SetLevel(s, o.isBuy, o.price, level').(slots := s.slots[h := o.(quantity := q)]))
  }

  /** amend_order once the order in slot h is known to be active: a new price
      moves it, the same price overwrites its quantity (refused when the level is
      missing, which the invariant rules out); success bumps the version. */
  function AmendAt(s: BookState, h: nat, p: int, q: nat): (r: (BookState, bool))
    requires LinkedAt(s, h) && s.slots[h].isActive
    ensures r.1 <==> s.slots[h].price != p || s.slots[h].price in Side(s, s.slots[h].isBuy)
    ensures !r.1 ==> r.0 == s
    ensures r.1 ==> && r.0.version == s.version + 1 && r.0.matching == s.matching
                    && r.0.lookup == s.lookup && r.0.slots.Keys == s.slots.Keys && r.0.pool == s.pool
    ensures s.slots[h].price != p ==> r.0 == Reprice(s, h, p, q).(version := s.version + 1)
    ensures r.1 && s.slots[h].price == p ==> r.0 == Requantify(s, h, q).value.(version := s.version + 1)
  {
    if s.slots[h].price != p then (Reprice(s, h, p, q).(version := s.version + 1), true)
    else match Requantify(s, h, q)
      case None => (s, false)
      case Some(r) => (r.(version := s.version + 1), true)
  }

  /** OrderBook::amend_order. The field checks of add_order come first, then an
      unknown or inactive order is refused; refusals change nothing. A new price
      moves the order to the tail of the new price's level, where it stays
      inactive; the same price overwrites the quantity in place. Success bumps
      the version; no matching runs. */
  function Amend(s: BookState, id: nat, p: int, q: nat): (r: (BookState, bool))
    requires LinkedId(s, id)
    ensures r.1 <==> && CheckFields(id, p, q) == Accepted
                     && id in s.lookup && s.slots[s.lookup[id]].isActive
                     && var o := s.slots[s.lookup[id]];
                        o.price != p || o.price in Side(s, o.isBuy)
    ensures !r.1 ==> r.0 == s
    ensures r.1 ==> && r.0.version == s.version + 1 && r.0.matching == s.matching
                    && r.0.lookup == s.lookup && r.0.slots.Keys == s.slots.Keys && r.0.pool == s.pool
  {
    if CheckFields(id, p, q) != Accepted then (s, false)
    else if id !in s.lookup then (s, false)
    else
      var h := s.lookup[id];
      if !s.slots[h].isActive then (s, false)
      else AmendAt(s, h, p, q)
  }

  // ---------------------------------------------------------------------------
  // Each operation keeps the invariant

  /** Accepting an order is taking a slot, then attaching the stored order to it. */
  lemma AcceptIsAttach(s: BookState, o: Order)
    ensures var (pool, h) := Allocated(s.pool);
            Accept(s, o) == Attach(s.(pool := pool), h, Stored(o)).(version := s.version + 1)
  {
    var (pool, h) := Allocated(s.pool);
    RelinkIsAttach(s.(pool := pool), s.(pool := pool, lookup := s.lookup[o.orderId := h]), h, Stored(o));
  }

  lemma AcceptKeepsInv(s: BookState, o: Order)
    requires Inv(s) && InsertStatus(s, o) == Accepted
    ensures Inv(Accept(s, o))
  {
    AllocateKeepsInv(s);
    var (pool, h) := Allocated(s.pool);
    var t := s.(pool := pool);
    AcceptIsAttach(s, o);
    AttachKeepsInv(t, h, Stored(o));
    var a := Attach(t, h, Stored(o));
    InvSameStructure(a, a.(version := s.version + 1));
  }

  /** Erasing the registry entry of an inactive order keeps the invariant. */
  lemma EraseInactiveKeepsInv(s: BookState, id: nat)
    requires Inv(s) && id in s.lookup && !s.slots[s.lookup[id]].isActive
    ensures Inv(s.(lookup := s.lookup - {id}))
  {
    var t := s.(lookup := s.lookup - {id});
    forall k | k in t.slots ensures Placed(t, k) {
      assert Placed(s, k);
    }
  }

  /** What unlinking the order in slot h relies on, drawn from the invariant: it
      is active and queued in the level of its price, which covers and counts it. */
  ghost predicate Queued(s: BookState, h: nat)
  {
    && h in s.slots
    && var o := s.slots[h];
       && o.isActive
       && o.price in Side(s, o.isBuy)
       && var l := Side(s, o.isBuy)[o.price];
          l.price == o.price && h in l.queue && o.quantity <= l.totalQuantity && l.orderCount >= 1
  }

  /** Moving the order also relies on its registration under its own id. */
  ghost predicate Movable(s: BookState, h: nat)
  {
    Queued(s, h) && s.slots[h].orderId in s.lookup && s.lookup[s.slots[h].orderId] == h
  }

  /** In a well-formed book every registered order can be unlinked. */
  lemma InvLinkedId(s: BookState, id: nat)
    requires Inv(s)
    ensures LinkedId(s, id)
  {
    if id in s.lookup {
      QueuedBound(s, s.lookup[id]);
    }
  }

  lemma CoreMovable(s: BookState, h: nat)
    requires Core(s) && h in s.slots && s.slots[h].isActive
    ensures Movable(s, h) && LinkedAt(s, h)
  {
    QueuedBound(s, h);
  }

  /** The unlink step of cancel_order and amend_order leaves the sides as Detach
      does, whatever the registry holds, and returns the order inactive. */
  lemma RemoveOrderIsDetach(s: BookState, t: BookState, h: nat)
    requires Queued(s, h)
    requires t.bids == s.bids && t.asks == s.asks && t.slots == s.slots
    ensures LinkedAt(t, h)
    ensures var o := s.slots[h];
            && Unlinkable(s, h, o.isBuy, o.price)
            && var d := Detach(s, h, o.isBuy, o.price);
               var r := RemoveOrder(t, h);
               r.0.bids == d.bids && r.0.asks == d.asks && r.1 == o.(isActive := false)
  {
    var o := s.slots[h];
    var d := Detach(s, h, o.isBuy, o.price);
    var r := RemoveOrder(t, h).0;
    assert Side(r, o.isBuy) == Side(d, o.isBuy) && Side(r, !o.isBuy) == Side(d, !o.isBuy);
  }

  /** The link step of add_order and amend_order, on a registry that already maps
      the order's id to slot h, is Attach. */
  lemma RelinkIsAttach(s: BookState, t: BookState, h: nat, o: Order)
    requires t.bids == s.bids && t.asks == s.asks && t.lookup == s.lookup[o.orderId := h]
    requires t.slots[h := o] == s.slots[h := o]
    requires t.pool == s.pool && t.version == s.version && t.matching == s.matching
    ensures Relink(t, h, o) == Attach(s, h, o)
  {
    var r := Relink(t, h, o);
    var a := Attach(s, h, o);
    assert Side(r, o.isBuy) == Side(a, o.isBuy) && Side(r, !o.isBuy) == Side(a, !o.isBuy);
  }

  /** A successful cancel is Detach followed by the release of the slot. */
  lemma CancelIsDetach(s: BookState, id: nat)
    requires Inv(s) && LinkedId(s, id) && id != 0 && id in s.lookup && s.slots[s.lookup[id]].isActive
    ensures var h := s.lookup[id];
            var o := s.slots[h];
            && ActiveAt(s, h, o.isBuy, o.price)
            && Unlinkable(s, h, o.isBuy, o.price)
            && var d := Detach(s, h, o.isBuy, o.price);
               Cancel(s, id).0 == d.(pool := Released(d.pool, At(h)), version := s.version + 1)
  {
    var h := s.lookup[id];
    CoreMovable(s, h);
    RemoveOrderIsDetach(s, s.(lookup := s.lookup - {id}), h);
  }

  lemma CancelKeepsInv(s: BookState, id: nat)
    requires Inv(s) && LinkedId(s, id)
    ensures Inv(Cancel(s, id).0)
  {
    if id != 0 && id in s.lookup {
      var h := s.lookup[id];
      var o := s.slots[h];
      if !o.isActive {
        EraseInactiveKeepsInv(s, id);
      } else {
        CancelIsDetach(s, id);
        DetachKeepsInv(s, h, o.isBuy, o.price);
        var d := Detach(s, h, o.isBuy, o.price);
        ReleaseKeepsInv(d, h);
        var e := d.(pool := Released(d.pool, At(h)));
        InvSameStructure(e, e.(version := s.version + 1));
      }
    }
  }

  /** A price-changing amend is Detach followed by Attach of the inactive order
      with its new price and quantity. */
  lemma RepriceIsDetachAttach(s: BookState, h: nat, p: int, q: nat)
    requires Movable(s, h)
    ensures LinkedAt(s, h)
    ensures var o := s.slots[h];
            && Unlinkable(s, h, o.isBuy, o.price)
            && var d := Detach(s, h, o.isBuy, o.price);
               var o2 := o.(isActive := false, price := p, quantity := q);
               Reprice(s, h, p, q) == Attach(d, h, o2)
  {
    var o := s.slots[h];
    var d := Detach(s, h, o.isBuy, o.price);
    var o2 := o.(isActive := false, price := p, quantity := q);
    RemoveOrderIsDetach(s, s, h);
    var s1 := RemoveOrder(s, h).0;
    assert s1.lookup == d.lookup[o.orderId := h];
    assert s1.slots[h := o2] == d.slots[h := o2];
    RelinkIsAttach(d, s1, h, o2);
  }

  /** Moving an active order to a valid price keeps the invariant. */
  lemma RepriceKeepsInv(s: BookState, h: nat, p: int, q: nat)
    requires Inv(s) && h in s.slots && s.slots[h].isActive && ValidPrice(p)
    ensures LinkedAt(s, h) && Inv(Reprice(s, h, p, q))
  {
    var o := s.slots[h];
    CoreMovable(s, h);
    RepriceIsDetachAttach(s, h, p, q);
    DetachKeepsInv(s, h, o.isBuy, o.price);
    var d := Detach(s, h, o.isBuy, o.price);
    AttachKeepsInv(d, h, o.(isActive := false, price := p, quantity := q));
  }

  lemma RequantifyLevelOk(s: BookState, h: nat, q: nat)
    requires Core(s) && h in s.slots
    ensures var o := s.slots[h];
            var level := Side(s, o.isBuy)[o.price];
            o.quantity <= level.totalQuantity &&
            LevelOk(level.(totalQuantity := level.totalQuantity - o.quantity + q), o.price, o.isBuy,
                    s.slots[h := o.(quantity := q)])
  {
    var o := s.slots[h];
    QueuedBound(s, h);
    var level := Side(s, o.isBuy)[o.price];
    assert LevelOk(level, o.price, o.isBuy, s.slots);
    var i := IndexOf(level.queue, h);
    QueueQtyReplace(level.queue, i, s.slots, o.(quantity := q));
  }

  /** No level other than the order's own queues slot h, so changing its quantity
      leaves them well formed. */
  lemma RequantifyOthersOk(s: BookState, h: nat, q: nat)
    requires Core(s) && h in s.slots
    ensures var o := s.slots[h];
            var slots := s.slots[h := o.(quantity := q)];
            && SideOk(Side(s, o.isBuy) - {o.price}, o.isBuy, slots)
            && SideOk(Side(s, !o.isBuy), !o.isBuy, slots)
  {
    var o := s.slots[h];
    var slots := s.slots[h := o.(quantity := q)];
    var side := Side(s, o.isBuy) - {o.price};
    forall p', k | p' in side && 0 <= k < |side[p'].queue| ensures Kept(s.slots, slots, side[p'].queue[k]) {
      QueuedAt(s, o.isBuy, p', k);
    }
    SideOkFrame(side, o.isBuy, s.slots, slots);
    var other := Side(s, !o.isBuy);
    forall p', k | p' in other && 0 <= k < |other[p'].queue| ensures Kept(s.slots, slots, other[p'].queue[k]) {
      QueuedAt(s, !o.isBuy, p', k);
    }
    SideOkFrame(other, !o.isBuy, s.slots, slots);
  }

  lemma RequantifySidesOk(s: BookState, h: nat, q: nat)
    requires Core(s) && h in s.slots && s.slots[h].isActive
    ensures LinkedAt(s, h)
    ensures Requantify(s, h, q).Some?
    ensures var r := Requantify(s, h, q).value;
            SideOk(r.bids, true, r.slots) && SideOk(r.asks, false, r.slots)
  {
    var o := s.slots[h];
    CoreMovable(s, h);
    RequantifyLevelOk(s, h, q);
    RequantifyOthersOk(s, h, q);
    var r := Requantify(s, h, q).value;
    var level := Side(s, o.isBuy)[o.price];
    var level' := level.(totalQuantity := level.totalQuantity - o.quantity + q);
    var updated := (Side(s, o.isBuy) - {o.price})[o.price := level'];
    assert Side(r, o.isBuy) == updated;
    assert Side(r, !o.isBuy) == Side(s, !o.isBuy);
  }

  /** Changing a quantity moves no order between levels: with the same slots,
      sides, prices and queues, every order stays placed. */
  lemma PlacedSameQueues(s: BookState, r: BookState)
    requires forall k | k in s.slots :: Placed(s, k)
    requires r.slots.Keys == s.slots.Keys
    requires forall k | k in s.slots :: r.slots[k].price == s.slots[k].price && r.slots[k].isBuy == s.slots[k].isBuy
    requires r.bids.Keys == s.bids.Keys && r.asks.Keys == s.asks.Keys
    requires forall p | p in s.bids :: r.bids[p].queue == s.bids[p].queue
    requires forall p | p in s.asks :: r.asks[p].queue == s.asks[p].queue
    ensures forall k | k in r.slots :: Placed(r, k)
  {
    forall k | k in r.slots ensures Placed(r, k) {
      assert Placed(s, k);
    }
  }

  lemma RequantifyPlaced(s: BookState, h: nat, q: nat)
    requires LinkedAt(s, h) && s.slots[h].isActive && s.slots[h].price in Side(s, s.slots[h].isBuy)
    requires forall k | k in s.slots :: Placed(s, k)
    ensures Requantify(s, h, q).Some?
    ensures var r := Requantify(s, h, q).value;
            forall k | k in r.slots :: Placed(r, k)
  {
    PlacedSameQueues(s, Requantify(s, h, q).value);
  }

  /** Overwriting the quantity of a stored order leaves the registry, the slots'
      ownership and positivity (for a positive quantity) intact. */
  lemma RequantifySlots(s: BookState, h: nat, q: nat)
    requires h in s.slots && q > 0
    requires RegistryOk(s.lookup, s.slots) && Positive(s.slots)
    requires forall k :: k in s.slots ==> Outstanding(s.pool, k)
    ensures var slots := s.slots[h := s.slots[h].(quantity := q)];
            && RegistryOk(s.lookup, slots) && Positive(slots)
            && (forall k :: k in slots ==> Outstanding(s.pool, k))
  {
  }

  /** A same-price amend keeps the invariant: the queue is untouched and the
      aggregate moves exactly as the order's quantity does. */
  lemma RequantifyKeepsInv(s: BookState, h: nat, q: nat)
    requires Inv(s) && h in s.slots && s.slots[h].isActive && q > 0
    ensures LinkedAt(s, h)
    ensures Requantify(s, h, q).Some? && Inv(Requantify(s, h, q).value)
  {
    RequantifySidesOk(s, h, q);
    CoreMovable(s, h);
    RequantifyPlaced(s, h, q);
    RequantifySlots(s, h, q);
  }

  lemma RepriceBumpKeepsInv(s: BookState, h: nat, p: int, q: nat)
    requires Inv(s) && h in s.slots && s.slots[h].isActive && ValidPrice(p)
    ensures LinkedAt(s, h) && Inv(Reprice(s, h, p, q).(version := s.version + 1))
  {
    RepriceKeepsInv(s, h, p, q);
    var a := Reprice(s, h, p, q);
    InvSameStructure(a, a.(version := s.version + 1));
  }

  lemma RequantifyBumpKeepsInv(s: BookState, h: nat, q: nat)
    requires Inv(s) && h in s.slots && s.slots[h].isActive && q > 0
    ensures LinkedAt(s, h) && Requantify(s, h, q).Some?
    ensures Inv(Requantify(s, h, q).value.(version := s.version + 1))
  {
    RequantifyKeepsInv(s, h, q);
    var r := Requantify(s, h, q).value;
    InvSameStructure(r, r.(version := s.version + 1));
  }

  /** amend_order moving an active order to a new valid price keeps the invariant. */
  lemma AmendRepriceKeepsInv(s: BookState, h: nat, p: int, q: nat)
    requires Inv(s) && h in s.slots && s.slots[h].isActive && ValidPrice(p)
    requires s.slots[h].price != p
    ensures LinkedAt(s, h) && Inv(AmendAt(s, h, p, q).0)
  {
    RepriceBumpKeepsInv(s, h, p, q);
  }

  /** amend_order overwriting an active order's quantity with a positive one
      keeps the invariant. */
  lemma AmendRequantifyKeepsInv(s: BookState, h: nat, q: nat)
    requires Inv(s) && h in s.slots && s.slots[h].isActive && q > 0
    ensures LinkedAt(s, h) && Inv(AmendAt(s, h, s.slots[h].price, q).0)
  {
    RequantifyBumpKeepsInv(s, h, q);
  }

  lemma AmendKeepsInv(s: BookState, id: nat, p: int, q: nat)
    requires Inv(s) && LinkedId(s, id)
    ensures Inv(Amend(s, id, p, q).0)
  {
    if CheckFields(id, p, q) == Accepted && id in s.lookup && s.slots[s.lookup[id]].isActive {
      var h := s.lookup[id];
      if s.slots[h].price != p {
        AmendRepriceKeepsInv(s, h, p, q);
      } else {
        AmendRequantifyKeepsInv(s, h, q);
      }
    }
  }

  /** In a well-formed book the level an active order rests on is always there,
      so an amend that passes the field checks succeeds exactly when the order
      is registered and active. */
  lemma InvAmendSucceeds(s: BookState, id: nat, p: int, q: nat)
    requires Inv(s)
    ensures LinkedId(s, id)
    ensures Amend(s, id, p, q).1 <==> && CheckFields(id, p, q) == Accepted
                                      && id in s.lookup && s.slots[s.lookup[id]].isActive
  {
    InvLinkedId(s, id);
    if id in s.lookup && s.slots[s.lookup[id]].isActive {
      QueuedBound(s, s.lookup[id]);
    }
  }
}
