/** The building blocks every mutation of capstone_project/order_book.cpp is made
    of, each with the proof that it keeps the structural invariant:
    Detach (remove_order on an active order, the registry entry and the slot
    dropped, an emptied level erased), Attach (an order stored in a slot,
    registered and linked at the tail of its level), and taking a slot from or
    giving it back to the order pool. */
module Steps {
  import opened Records
  import opened Pool
  import opened Levels
  import opened BookState

  /** The level at price p of one side, or the empty level get_or_create_level
      would install there. */
  function LevelAt(s: BookState, isBuy: bool, p: int): (l: Level)
    ensures p in Side(s, isBuy) ==> l == Side(s, isBuy)[p]
    ensures p !in Side(s, isBuy) ==> l == NewLevel(p)
  {
    if p in Side(s, isBuy) then Side(s, isBuy)[p] else NewLevel(p)
  }

  /** What remove_order needs to unlink the order in slot h from level p. */
  ghost predicate Unlinkable(s: BookState, h: nat, isBuy: bool, p: int)
  {
    && h in s.slots
    && p in Side(s, isBuy)
    && (s.slots[h].isActive ==>
          && h in Side(s, isBuy)[p].queue
          && s.slots[h].quantity <= Side(s, isBuy)[p].totalQuantity
          && Side(s, isBuy)[p].orderCount >= 1)
  }

  /** remove_order on the order in slot h at level p, the level erased from its
      side if that left it empty, and the order's slot and registry entry
      dropped. */
  function Detach(s: BookState, h: nat, isBuy: bool, p: int): (r: BookState)
    requires Unlinkable(s, h, isBuy, p)
    ensures r.slots == s.slots - {h} && r.lookup == s.lookup - {s.slots[h].orderId}
    ensures r.pool == s.pool && r.version == s.version && r.matching == s.matching
    ensures Side(r, !isBuy) == Side(s, !isBuy)
    ensures var u := Unlink(Side(s, isBuy)[p], h, s.slots[h]).0;
            Side(r, isBuy) == if IsEmpty(u) then Side(s, isBuy) - {p} else Side(s, isBuy)[p := u]
    ensures forall p' :: p' in Side(r, isBuy) ==>
              && p' in Side(s, isBuy)
              && Side(r, isBuy)[p'].totalQuantity ==
                   Side(s, isBuy)[p'].totalQuantity - (if p' == p && s.slots[h].isActive then s.slots[h].quantity else 0)
  {
    var l := Unlink(Side(s, isBuy)[p], h, s.slots[h]).0;
    var side := if IsEmpty(l) then Side(s, isBuy) - {p} else Side(s, isBuy)[p := l];
    WithSide(s, isBuy, side).(slots := s.slots - {h}, lookup := s.lookup - {s.slots[h].orderId})
  }

  /** Store order o in slot h, register it under its id and link it at the tail
      of the level of its side and price (created when absent). */
  function Attach(s: BookState, h: nat, o: Order): (r: BookState)
    ensures r.slots == s.slots[h := o] && r.lookup == s.lookup[o.orderId := h]
    ensures r.pool == s.pool && r.version == s.version && r.matching == s.matching
    ensures Side(r, !o.isBuy) == Side(s, !o.isBuy)
    ensures Side(r, o.isBuy) == Side(s, o.isBuy)[o.price := Append(LevelAt(s, o.isBuy, o.price), h, o)]
  {
    var level := Append(LevelAt(s, o.isBuy, o.price), h, o);
    SetLevel(s, o.isBuy, o.price, level).(slots := s.slots[h := o], lookup := s.lookup[o.orderId := h])
  }

  // ---------------------------------------------------------------------------
  // Detach keeps the invariant

  /** A stored order sits at most at its own level, whose aggregate covers it. */
  lemma QueuedBound(s: BookState, h: nat)
    requires Core(s) && h in s.slots
    ensures var o := s.slots[h];
            && o.price in Side(s, o.isBuy)
            && h in Side(s, o.isBuy)[o.price].queue
            && o.quantity <= Side(s, o.isBuy)[o.price].totalQuantity
            && Side(s, o.isBuy)[o.price].orderCount >= 1
            && Side(s, o.isBuy)[o.price].price == o.price
  {
    var o := s.slots[h];
    assert Placed(s, h);
    var level := Side(s, o.isBuy)[o.price];
    assert LevelOk(level, o.price, o.isBuy, s.slots);
    var i := IndexOf(level.queue, h);
    QueueQtySplice(level.queue, i, s.slots);
  }

  /** Unlinking an active order from its level: the rest of the queue is the old
      queue without that slot, and a level that still holds orders stays well
      formed once the slot is dropped. */
  lemma UnlinkLevelOk(level: Level, p: int, isBuy: bool, slots: map<nat, Order>, h: nat)
    requires LevelOk(level, p, isBuy, slots) && h in level.queue
    requires h in slots && slots[h].isActive && slots[h].quantity <= level.totalQuantity
    ensures var l := Unlink(level, h, slots[h]).0;
            && (IsEmpty(l) <==> l.queue == [])
            && (forall k :: k in l.queue <==> k in level.queue && k != h)
            && (!IsEmpty(l) ==> LevelOk(l, p, isBuy, slots - {h}))
  {
    var i := IndexOf(level.queue, h);
    var l := Unlink(level, h, slots[h]).0;
    forall k | 0 <= k < |l.queue| ensures l.queue[k] != h && l.queue[k] in level.queue {
      if k < i { assert l.queue[k] == level.queue[k]; }
      else { assert l.queue[k] == level.queue[k + 1]; }
    }
    forall k | k in level.queue && k != h ensures k in l.queue {
      var j :| 0 <= j < |level.queue| && level.queue[j] == k;
      if j < i { assert l.queue[j] == k; }
      else { assert j != i; assert l.queue[j - 1] == k; }
    }
    forall a, b | 0 <= a < b < |l.queue| ensures l.queue[a] != l.queue[b] {
      var a' := if a < i then a else a + 1;
      var b' := if b < i then b else b + 1;
      assert l.queue[a] == level.queue[a'] && l.queue[b] == level.queue[b'];
    }
    QueueQtySplice(level.queue, i, slots);
    QueueQtySame(l.queue, slots, slots - {h});
  }

  /** Dropping a slot whose order belongs to no level of a side keeps that side
      well formed. */
  lemma SideWithout(side: map<int, Level>, isBuy: bool, slots: map<nat, Order>, h: nat)
    requires SideOk(side, isBuy, slots) && h in slots
    requires forall p :: p in side ==> slots[h].isBuy != isBuy || slots[h].price != p
    ensures SideOk(side, isBuy, slots - {h})
  {
    forall p, k | p in side && 0 <= k < |side[p].queue| ensures Kept(slots, slots - {h}, side[p].queue[k]) {
      assert LevelOk(side[p], p, isBuy, slots);
    }
    SideOkFrame(side, isBuy, slots, slots - {h});
  }

  /** The order in slot h is active, stored at side isBuy and price p. */
  ghost predicate ActiveAt(s: BookState, h: nat, isBuy: bool, p: int)
  {
    && h in s.slots && s.slots[h].isActive
    && s.slots[h].isBuy == isBuy && s.slots[h].price == p
    && p in Side(s, isBuy) && h in Side(s, isBuy)[p].queue
    && s.slots[h].quantity <= Side(s, isBuy)[p].totalQuantity
  }

  lemma DetachSidesOk(s: BookState, h: nat, isBuy: bool, p: int)
    requires SideOk(Side(s, isBuy), isBuy, s.slots) && SideOk(Side(s, !isBuy), !isBuy, s.slots)
    requires ActiveAt(s, h, isBuy, p)
    ensures Unlinkable(s, h, isBuy, p)
    ensures var r := Detach(s, h, isBuy, p);
            SideOk(Side(r, isBuy), isBuy, r.slots) && SideOk(Side(r, !isBuy), !isBuy, r.slots)
  {
    var level := Side(s, isBuy)[p];
    assert LevelOk(level, p, isBuy, s.slots);
    UnlinkLevelOk(level, p, isBuy, s.slots, h);
    var r := Detach(s, h, isBuy, p);
    var side := Side(s, isBuy) - {p};
    assert SideOk(side, isBuy, s.slots);
    SideWithout(side, isBuy, s.slots, h);
    SideWithout(Side(s, !isBuy), !isBuy, s.slots, h);
    var l := Unlink(level, h, s.slots[h]).0;
    if !IsEmpty(l) {
      var updated := side[p := l];
      assert Side(r, isBuy) == updated;
      assert LevelOk(l, p, isBuy, r.slots);
      assert forall p' :: p' in updated ==> LevelOk(updated[p'], p', isBuy, r.slots);
    } else {
      assert Side(r, isBuy) == side;
    }
  }

  lemma DetachPlaced(s: BookState, h: nat, isBuy: bool, p: int)
    requires Core(s) && ActiveAt(s, h, isBuy, p)
    ensures Unlinkable(s, h, isBuy, p)
    ensures var r := Detach(s, h, isBuy, p);
            forall k :: k in r.slots ==> Placed(r, k)
  {
    var level := Side(s, isBuy)[p];
    assert LevelOk(level, p, isBuy, s.slots);
    UnlinkLevelOk(level, p, isBuy, s.slots, h);
    var r := Detach(s, h, isBuy, p);
    var l := Unlink(level, h, s.slots[h]).0;
    forall k | k in r.slots ensures Placed(r, k) {
      assert Placed(s, k);
      var o := s.slots[k];
      if o.isBuy == isBuy && o.price == p {
        assert k in l.queue;
        assert Side(r, isBuy)[p] == l;
      } else {
        assert Side(r, o.isBuy)[o.price] == Side(s, o.isBuy)[o.price];
      }
    }
  }

  /** The registry after erasing the id of an active order and dropping its slot. */
  lemma RegistryWithout(lookup: map<nat, nat>, slots: map<nat, Order>, h: nat)
    requires RegistryOk(lookup, slots) && h in slots && slots[h].isActive
    ensures RegistryOk(lookup - {slots[h].orderId}, slots - {h})
  {
  }

  /** Detaching an active order keeps the invariant; its slot is still
      outstanding in the pool and no longer stored. */
  lemma DetachKeepsInv(s: BookState, h: nat, isBuy: bool, p: int)
    requires Core(s) && ActiveAt(s, h, isBuy, p)
    ensures Unlinkable(s, h, isBuy, p)
    ensures var r := Detach(s, h, isBuy, p);
            && Core(r) && Outstanding(r.pool, h) && h !in r.slots
            && (Positive(s.slots) ==> Positive(r.slots))
  {
    DetachSidesOk(s, h, isBuy, p);
    var r := Detach(s, h, isBuy, p);
    assert SideOk(r.bids, true, r.slots) && SideOk(r.asks, false, r.slots);
    DetachPlaced(s, h, isBuy, p);
    RegistryWithout(s.lookup, s.slots, h);
  }

  // ---------------------------------------------------------------------------
  // Attach keeps the invariant

  /** Where a slot h may be attached: it is outstanding but holds no order, and
      the order's id is free and its price valid. */
  ghost predicate Attachable(s: BookState, h: nat, o: Order)
  {
    && Outstanding(s.pool, h) && h !in s.slots
    && o.orderId !in s.lookup
    && ValidPrice(o.price)
  }

  lemma AttachLevelOk(s: BookState, h: nat, o: Order)
    requires Core(s) && Attachable(s, h, o)
    ensures LevelOk(Append(LevelAt(s, o.isBuy, o.price), h, o), o.price, o.isBuy, s.slots[h := o])
  {
    var old_ := LevelAt(s, o.isBuy, o.price);
    var slots := s.slots[h := o];
    if o.price in Side(s, o.isBuy) {
      assert LevelOk(old_, o.price, o.isBuy, s.slots);
    }
    assert forall k :: 0 <= k < |old_.queue| ==> old_.queue[k] in s.slots && old_.queue[k] != h;
    QueueQtySame(old_.queue, s.slots, slots);
    QueueQtyAppend(old_.queue, h, slots);
    var l := Append(old_, h, o);
    forall a, b | 0 <= a < b < |l.queue| ensures l.queue[a] != l.queue[b] {
      if b == |old_.queue| { assert l.queue[a] == old_.queue[a]; }
    }
  }

  lemma AttachSidesOk(s: BookState, h: nat, o: Order)
    requires Core(s) && Attachable(s, h, o)
    ensures var r := Attach(s, h, o);
            SideOk(r.bids, true, r.slots) && SideOk(r.asks, false, r.slots)
  {
    var r := Attach(s, h, o);
    AttachLevelOk(s, h, o);
    assert forall k :: k in s.slots ==> Kept(s.slots, r.slots, k);
    var side := Side(s, o.isBuy) - {o.price};
    assert SideOk(side, o.isBuy, s.slots);
    SideOkFrame(side, o.isBuy, s.slots, r.slots);
    SideOkFrame(Side(s, !o.isBuy), !o.isBuy, s.slots, r.slots);
    var updated := side[o.price := Append(LevelAt(s, o.isBuy, o.price), h, o)];
    assert Side(r, o.isBuy) == updated;
    assert forall p' :: p' in updated ==> LevelOk(updated[p'], p', o.isBuy, r.slots);
    assert SideOk(Side(r, o.isBuy), o.isBuy, r.slots) && SideOk(Side(r, !o.isBuy), !o.isBuy, r.slots);
  }

  lemma AttachPlaced(s: BookState, h: nat, o: Order)
    requires Core(s) && Attachable(s, h, o)
    ensures var r := Attach(s, h, o);
            forall k :: k in r.slots ==> Placed(r, k)
  {
    var r := Attach(s, h, o);
    forall k | k in r.slots ensures Placed(r, k) {
      if k != h {
        assert Placed(s, k);
        var q := Side(s, o.isBuy);
        if r.slots[k].isBuy == o.isBuy && r.slots[k].price == o.price {
          assert k in LevelAt(s, o.isBuy, o.price).queue;
        }
      }
    }
  }

  lemma AttachRegistry(lookup: map<nat, nat>, slots: map<nat, Order>, h: nat, o: Order)
    requires RegistryOk(lookup, slots) && h !in slots && o.orderId !in lookup
    ensures RegistryOk(lookup[o.orderId := h], slots[h := o])
  {
  }

  /** Attaching an order to a free outstanding slot keeps the invariant. */
  lemma AttachKeepsInv(s: BookState, h: nat, o: Order)
    requires Core(s) && Attachable(s, h, o)
    ensures Core(Attach(s, h, o))
    ensures Positive(s.slots) && (o.isActive ==> o.quantity > 0) ==> Positive(Attach(s, h, o).slots)
  {
    AttachSidesOk(s, h, o);
    AttachPlaced(s, h, o);
    AttachRegistry(s.lookup, s.slots, h, o);
    AttachSlots(s.pool, s.slots, h, o);
  }

  lemma AttachSlots(pool: PoolState, slots: map<nat, Order>, h: nat, o: Order)
    requires forall k :: k in slots ==> Outstanding(pool, k)
    requires Outstanding(pool, h)
    ensures forall k :: k in slots[h := o] ==> Outstanding(pool, k)
    ensures Positive(slots) && (o.isActive ==> o.quantity > 0) ==> Positive(slots[h := o])
  {
  }

  // ---------------------------------------------------------------------------
  // The pool

  /** allocate() hands out a slot that holds no order, and keeps the invariant. */
  lemma AllocateKeepsInv(s: BookState)
    requires Core(s)
    ensures var (pool, h) := Allocated(s.pool);
            && Core(s.(pool := pool)) && Outstanding(pool, h) && h !in s.slots
  {
    AllocateFresh(s.pool);
    var (pool, h) := Allocated(s.pool);
    var t := s.(pool := pool);
    forall k | k in t.slots ensures Placed(t, k) {
      assert Placed(s, k);
    }
  }

  /** deallocate of a slot that holds no order keeps the invariant. */
  lemma ReleaseKeepsInv(s: BookState, h: nat)
    requires Core(s) && Outstanding(s.pool, h) && h !in s.slots
    ensures Core(s.(pool := Released(s.pool, At(h))))
  {
    ReleaseKeeps(s.pool, h);
    var t := s.(pool := Released(s.pool, At(h)));
    forall k | k in t.slots ensures Placed(t, k) {
      assert Placed(s, k);
    }
  }
}
