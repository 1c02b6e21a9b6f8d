/** What the public operations of OrderBook in capstone_project/order_book.cpp
    promise beyond keeping the invariant: time priority within a level, cancel
    undoing an add that did not trade, a cancel being final, and what each
    path of amend_order leaves in place. */
module Properties {
  import opened Records
  import opened Pool
  import opened Levels
  import opened BookState
  import opened Steps
  import opened Matching
  import opened Operations
  import opened Collections

  // ---------------------------------------------------------------------------
  // add_order

  /** An accepted order takes a slot no stored order holds, is registered under
      its id and joins the tail of the level of its side and price, behind every
      order already resting there (time priority); the aggregate grows by its
      quantity and no other level changes. */
  lemma AcceptJoinsTail(s: BookState, o: Order)
    requires Inv(s) && InsertStatus(s, o) == Accepted
    ensures var h := Allocated(s.pool).1;
            var t := Accept(s, o);
            && h !in s.slots
            && t.slots == s.slots[h := Stored(o)]
            && t.lookup == s.lookup[o.orderId := h]
            && Side(t, !o.isBuy) == Side(s, !o.isBuy)
            && Side(t, o.isBuy) == Side(s, o.isBuy)[o.price := Append(LevelAt(s, o.isBuy, o.price), h, Stored(o))]
            && Side(t, o.isBuy)[o.price].queue == LevelAt(s, o.isBuy, o.price).queue + [h]
            && Side(t, o.isBuy)[o.price].totalQuantity == LevelAt(s, o.isBuy, o.price).totalQuantity + o.quantity
  {
    AllocateFresh(s.pool);
  }

  /** A matching run that reports no trade leaves the book exactly as it was. */
  lemma MatchWithoutTrades(s: BookState)
    requires Inv(s) && Match(s).1 == []
    ensures Match(s).0 == s
  {
    if !s.matching {
      CanMatchIgnoresFlag(s, true);
      DrainDone(s.(matching := true));
    }
  }

  /** Unlinking the order just linked at the tail of a level restores the side
      index: an existing level gets its old value back, a level created for the
      order is erased again. */
  lemma UnlinkRestoresSide(side: map<int, Level>, isBuy: bool, slots: map<nat, Order>, p: int, h: nat, o: Order)
    requires SideOk(side, isBuy, slots) && h !in slots && o.isActive
    ensures var l := if p in side then side[p] else NewLevel(p);
            var u := Unlink(Append(l, h, o), h, o).0;
            (if IsEmpty(u) then side[p := Append(l, h, o)] - {p} else side[p := Append(l, h, o)][p := u]) == side
  {
    var l := if p in side then side[p] else NewLevel(p);
    if p in side {
      assert LevelOk(side[p], p, isBuy, slots);
    }
    assert h !in l.queue;
    AppendThenUnlink(l, h, o);
  }

  /** Unlinking the order just linked at slot h of book a (book s with that
      order linked at the tail of its level) gives back both sides of s. */
  lemma RemoveJustLinked(s: BookState, a: BookState, h: nat, o: Order)
    requires SideOk(Side(s, o.isBuy), o.isBuy, s.slots) && h !in s.slots && o.isActive
    requires a.slots == s.slots[h := o]
    requires Side(a, !o.isBuy) == Side(s, !o.isBuy)
    requires Side(a, o.isBuy) == Side(s, o.isBuy)[o.price := Append(LevelAt(s, o.isBuy, o.price), h, o)]
    ensures LinkedAt(a, h)
    ensures RemoveOrder(a, h).0.bids == s.bids && RemoveOrder(a, h).0.asks == s.asks
  {
    if o.price in Side(s, o.isBuy) {
      assert LevelOk(Side(s, o.isBuy)[o.price], o.price, o.isBuy, s.slots);
    }
    UnlinkRestoresSide(Side(s, o.isBuy), o.isBuy, s.slots, o.price, h, o);
    assert Side(RemoveOrder(a, h).0, o.isBuy) == Side(s, o.isBuy);
  }

  /** Cancelling the order that was just linked at slot h of book a (book s with
      that order accepted) succeeds and gives back the sides, the registry and
      the stored orders of s. */
  lemma CancelJustAccepted(s: BookState, a: BookState, h: nat, o: Order)
    requires SideOk(Side(s, o.isBuy), o.isBuy, s.slots) && h !in s.slots && o.orderId !in s.lookup
    requires o.orderId != 0
    requires a.slots == s.slots[h := Stored(o)] && a.lookup == s.lookup[o.orderId := h]
    requires Side(a, !o.isBuy) == Side(s, !o.isBuy)
    requires Side(a, o.isBuy) == Side(s, o.isBuy)[o.price := Append(LevelAt(s, o.isBuy, o.price), h, Stored(o))]
    ensures LinkedId(a, o.orderId)
    ensures var r := Cancel(a, o.orderId);
            && r.1
            && r.0.bids == s.bids && r.0.asks == s.asks
            && r.0.lookup == s.lookup && r.0.slots == s.slots
            && r.0.version == a.version + 1
  {
    var a1 := a.(lookup := a.lookup - {o.orderId});
    UpdateThenRemove(s.lookup, o.orderId, h);
    UpdateThenRemove(s.slots, h, Stored(o));
    RemoveJustLinked(s, a1, h, Stored(o));
  }

  /** cancel_order right after an add_order that traded nothing succeeds and
      gives back the side indexes, the registry and the stored orders as they
      were before the add; the version has moved on by two. */
  lemma InsertThenCancel(s: BookState, o: Order)
    requires Inv(s) && InsertStatus(s, o) == Accepted && Insert(s, o).2 == []
    ensures LinkedId(Insert(s, o).0, o.orderId)
    ensures var r := Cancel(Insert(s, o).0, o.orderId);
            && r.1
            && r.0.bids == s.bids && r.0.asks == s.asks
            && r.0.lookup == s.lookup && r.0.slots == s.slots
            && r.0.version == s.version + 2
  {
    var a := Accept(s, o);
    AcceptKeepsInv(s, o);
    MatchWithoutTrades(a);
    AcceptJoinsTail(s, o);
    CancelJustAccepted(s, a, Allocated(s.pool).1, o);
  }

  // ---------------------------------------------------------------------------
  // cancel_order

  /** A cancel is final: cancelling the same id again reports false and changes
      nothing, whatever the first call reported. */
  lemma CancelTwice(s: BookState, id: nat)
    requires Inv(s) && LinkedId(s, id)
    ensures LinkedId(Cancel(s, id).0, id)
    ensures Cancel(Cancel(s, id).0, id) == (Cancel(s, id).0, false)
  {
    CancelKeepsInv(s, id);
    InvLinkedId(Cancel(s, id).0, id);
  }

  /** A successful cancel_order takes the order out of its level and changes
      nothing else on either side: the level keeps its other orders in their
      time order and loses the order's quantity, or is erased when the order was
      its only one; every other level is as it was. */
  lemma CancelLeavesOthers(s: BookState, id: nat)
    requires Inv(s) && LinkedId(s, id) && Cancel(s, id).1
    ensures var h := s.lookup[id];
            var o := s.slots[h];
            var side := Side(s, o.isBuy);
            var t := Side(Cancel(s, id).0, o.isBuy);
            && Side(Cancel(s, id).0, !o.isBuy) == Side(s, !o.isBuy)
            && o.price in side
            && (forall k :: k in t ==> k in side)
            && (forall k :: k in side && k != o.price ==> k in t && t[k] == side[k])
            && (o.price in t <==> |side[o.price].queue| > 1)
            && (o.price in t ==> && t[o.price].queue == Without(side[o.price].queue, h)
                                 && t[o.price].totalQuantity == side[o.price].totalQuantity - o.quantity)
  {
    var h := s.lookup[id];
    var o := s.slots[h];
    QueuedBound(s, h);
    assert LevelOk(Side(s, o.isBuy)[o.price], o.price, o.isBuy, s.slots);
    UnlinkFromSide(Side(s, o.isBuy), o.price, h, o);
  }

  /** cancel_order as the source writes it: for an order that is registered but
      inactive it also hands the order's slot back to the pool, although the
      order is still linked in its level. */
  function CancelAsWritten(s: BookState, id: nat): (r: (BookState, bool))
    requires LinkedId(s, id)
    ensures !r.1 ==> r.0.bids == s.bids && r.0.asks == s.asks
    ensures id != 0 && id in s.lookup && !s.slots[s.lookup[id]].isActive ==>
              && !r.1 && r.0.slots == s.slots && r.0.lookup == s.lookup - {id}
              && !Outstanding(r.0.pool, s.lookup[id])
  {
    var r := Cancel(s, id);
    if id != 0 && id in s.lookup && !s.slots[s.lookup[id]].isActive then
      (r.0.(pool := Released(r.0.pool, At(s.lookup[id]))), false)
    else r
  }

  /** As written, cancelling an inactive order (one moved by a price-changing
      amend) leaves it linked at the tail of its level while its slot is the
      very next one the pool hands out: the next add_order overwrites an order
      that a level still queues. */
  lemma CancelInactiveReusesLinkedSlot(s: BookState, id: nat)
    requires Inv(s) && id != 0 && id in s.lookup && !s.slots[s.lookup[id]].isActive
    ensures LinkedId(s, id)
    ensures var h := s.lookup[id];
            var o := s.slots[h];
            var t := CancelAsWritten(s, id).0;
            && o.price in Side(t, o.isBuy) && h in Side(t, o.isBuy)[o.price].queue
            && Allocated(t.pool).1 == h
  {
    InvLinkedId(s, id);
    var h := s.lookup[id];
    assert Placed(s, h);
    LastReleasedFirstReused(s.pool, h);
  }

  /** The model's cancel_order keeps the slot of an inactive order: the book
      stays well formed and the next allocation hands out a different slot. */
  lemma CancelInactiveKeepsSlot(s: BookState, id: nat)
    requires Inv(s) && id != 0 && id in s.lookup && !s.slots[s.lookup[id]].isActive
    ensures LinkedId(s, id)
    ensures var h := s.lookup[id];
            var t := Cancel(s, id).0;
            && Inv(t) && h in t.slots && Allocated(t.pool).1 != h
  {
    InvLinkedId(s, id);
    CancelKeepsInv(s, id);
    AllocateFresh(s.pool);
  }

  // ---------------------------------------------------------------------------
  // amend_order

  /** A price-changing amend moves the order to the tail of the level of the
      new price (created when absent), behind every order resting there, with
      the new price and quantity. remove_order cleared its active flag and
      nothing sets it again, so it rests there inactive. Its old level loses it
      (or is erased when emptied); the other side and the registry are
      untouched. */
  lemma AmendMovesToTail(s: BookState, id: nat, p: int, q: nat)
    requires Inv(s) && LinkedId(s, id) && Amend(s, id, p, q).1
    requires s.slots[s.lookup[id]].price != p
    ensures var h := s.lookup[id];
            var o := s.slots[h];
            var moved := o.(price := p, quantity := q, isActive := false);
            var t := Amend(s, id, p, q).0;
            && t.slots == s.slots[h := moved]
            && t.lookup == s.lookup
            && Side(t, !o.isBuy) == Side(s, !o.isBuy)
            && p in Side(t, o.isBuy)
            && Side(t, o.isBuy)[p] == Append(LevelAt(s, o.isBuy, p), h, moved)
            && Side(t, o.isBuy)[p].queue == LevelAt(s, o.isBuy, p).queue + [h]
            && o.price in Side(s, o.isBuy)
            && (o.price in Side(t, o.isBuy) ==>
                  Side(t, o.isBuy)[o.price].queue == Without(Side(s, o.isBuy)[o.price].queue, h))
            && LinkedAt(s, h)
            && Side(t, o.isBuy) == Side(RemoveOrder(s, h).0, o.isBuy)[p := Append(LevelAt(s, o.isBuy, p), h, moved)]
  {
    var h := s.lookup[id];
    var o := s.slots[h];
    QueuedBound(s, h);
    var l := Side(s, o.isBuy)[o.price];
    assert LevelOk(l, o.price, o.isBuy, s.slots);
    UnlinkIsWithout(l, h, o);
    var s1 := RemoveOrder(s, h).0;
    assert LevelAt(s1, o.isBuy, p) == LevelAt(s, o.isBuy, p);
  }

  /** A price-changing amend leaves the rest of the order's side alone: every
      level other than the old and the new price is as it was; the old level
      stays exactly when it held another order, and then has lost the order's
      quantity from its aggregate. */
  lemma AmendLeavesOthers(s: BookState, id: nat, p: int, q: nat)
    requires Inv(s) && LinkedId(s, id) && Amend(s, id, p, q).1
    requires s.slots[s.lookup[id]].price != p
    ensures var h := s.lookup[id];
            var o := s.slots[h];
            var side := Side(s, o.isBuy);
            var t := Side(Amend(s, id, p, q).0, o.isBuy);
            && o.price in side
            && (forall k :: k in t ==> k in side || k == p)
            && (forall k :: k in side && k != p && k != o.price ==> k in t && t[k] == side[k])
            && (o.price in t <==> |side[o.price].queue| > 1)
            && (o.price in t ==> t[o.price].totalQuantity == side[o.price].totalQuantity - o.quantity)
  {
    var h := s.lookup[id];
    var o := s.slots[h];
    var side := Side(s, o.isBuy);
    AmendMovesToTail(s, id, p, q);
    assert LevelOk(side[o.price], o.price, o.isBuy, s.slots);
    var u := Unlink(side[o.price], h, o).0;
    var side1 := if IsEmpty(u) then side - {o.price} else side[o.price := u];
    assert Side(RemoveOrder(s, h).0, o.isBuy) == side1;
    MoveWithinSide(side, o.price, h, o, p, Append(LevelAt(s, o.isBuy, p), h, o.(price := p, quantity := q, isActive := false)));
  }

  /** An amend that keeps the price changes the order's quantity in place: it
      keeps its position in the queue (and so its time priority, whether the
      quantity grows or shrinks), and the level aggregate becomes
      total - old quantity + new quantity. Nothing else changes. */
  lemma AmendInPlace(s: BookState, id: nat, p: int, q: nat)
    requires Inv(s) && LinkedId(s, id) && Amend(s, id, p, q).1
    requires s.slots[s.lookup[id]].price == p
    ensures var o := s.slots[s.lookup[id]];
            o.price in Side(s, o.isBuy)
    ensures var h := s.lookup[id];
            var o := s.slots[h];
            var l := Side(s, o.isBuy)[o.price];
            var t := Amend(s, id, p, q).0;
            && t.slots == s.slots[h := o.(quantity := q)]
            && t.lookup == s.lookup
            && Side(t, !o.isBuy) == Side(s, !o.isBuy)
            && Side(t, o.isBuy) == Side(s, o.isBuy)[o.price := l.(totalQuantity := l.totalQuantity - o.quantity + q)]
  {
    QueuedBound(s, s.lookup[id]);
  }
}
