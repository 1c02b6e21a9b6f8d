/** InternalPriceLevel of capstone_project/order_book.cpp: the FIFO queue of the
    orders resting at one price, with its two counters. The intrusive
    doubly-linked list first_order .. last_order is represented by the sequence
    of the pool slots of its orders, head first; a level is a value that the
    book stores in its side index and replaces when it changes. */
module Levels {
  import opened Records

  datatype Level = Level(
    price: int,
    totalQuantity: nat,
    queue: seq<nat>,
    orderCount: nat,
    isActive: bool)

  /** The level get_or_create_level installs: the given price, nothing linked. */
  function NewLevel(p: int): (l: Level)
    ensures l.price == p && l.totalQuantity == 0 && l.queue == [] && l.isActive
    ensures IsEmpty(l)
  {
    Level(p, 0, [], 0, true)
  }

  /** is_empty: no order counted. While the count tracks the queue, that is
      exactly an empty queue. */
  predicate IsEmpty(l: Level)
    ensures l.orderCount == |l.queue| ==> (IsEmpty(l) <==> l.queue == [])
  {
    l.orderCount == 0
  }

  /** add_order: link `o`, stored in slot h, at the tail; the aggregate grows by
      its quantity and the count by one. */
  function Append(l: Level, h: nat, o: Order): (r: Level)
    ensures r.queue == l.queue + [h] && r.queue[|l.queue|] == h
    ensures r.totalQuantity == l.totalQuantity + o.quantity
    ensures r.orderCount == l.orderCount + 1
    ensures r.price == l.price && r.isActive == l.isActive
  {
    l.(queue := l.queue + [h],
       totalQuantity := l.totalQuantity + o.quantity,
       orderCount := l.orderCount + 1)
  }

  /** The position of slot h in a queue: its first occurrence. */
  function IndexOf(q: seq<nat>, h: nat): (i: nat)
    requires h in q
    ensures i < |q| && q[i] == h && h !in q[..i]
  {
    if q[0] == h then 0 else 1 + IndexOf(q[1..], h)
  }

  /** The queue with position i spliced out, neighbours joined in order. */
  function Splice(q: seq<nat>, i: nat): (r: seq<nat>)
    requires i < |q|
    ensures |r| == |q| - 1
    ensures forall k :: 0 <= k < i ==> r[k] == q[k]
    ensures forall k :: i <= k < |r| ==> r[k] == q[k + 1]
  {
    q[..i] + q[i + 1..]
  }

  /** remove_order: an inactive order is left alone; an active one is spliced out
      of the queue, the aggregate loses its current quantity and the count one,
      and the order is marked inactive. The result pairs the level and the order. */
  function Unlink(l: Level, h: nat, o: Order): (r: (Level, Order))
    requires o.isActive ==> h in l.queue && o.quantity <= l.totalQuantity && l.orderCount >= 1
    ensures !o.isActive ==> r == (l, o)
    ensures o.isActive ==> r.1 == o.(isActive := false)
    ensures o.isActive ==> && r.0.queue == Splice(l.queue, IndexOf(l.queue, h))
                           && r.0.totalQuantity == l.totalQuantity - o.quantity
                           && r.0.orderCount == l.orderCount - 1
                           && r.0.price == l.price && r.0.isActive == l.isActive
  {
    if !o.isActive then (l, o)
    else
      (l.(queue := Splice(l.queue, IndexOf(l.queue, h)),
          totalQuantity := l.totalQuantity - o.quantity,
          orderCount := l.orderCount - 1),
       o.(isActive := false))
  }

  /** Linking an active order at the tail and unlinking it again restores the
      level; the order comes back inactive. */
  lemma AppendThenUnlink(l: Level, h: nat, o: Order)
    requires o.isActive && h !in l.queue
    ensures Unlink(Append(l, h, o), h, o) == (l, o.(isActive := false))
  {
    var q := Append(l, h, o).queue;
    var i := IndexOf(q, h);
    assert forall k :: 0 <= k < |l.queue| ==> q[k] == l.queue[k];
    assert i == |l.queue|;
    assert Splice(q, i) == l.queue;
  }

  /** remove_order on the front order once it is filled (quantity 0): the
      queue loses its head, the count one, and the aggregate is unchanged; the
      level is left empty exactly when that order was its only one. */
  lemma UnlinkFront(l: Level, h: nat, o: Order)
    requires o.isActive && o.quantity == 0 && l.queue != [] && l.queue[0] == h
    requires l.orderCount == |l.queue|
    ensures Unlink(l, h, o).0 == l.(queue := l.queue[1..], orderCount := l.orderCount - 1)
    ensures IsEmpty(Unlink(l, h, o).0) <==> |l.queue| == 1
  {
    assert IndexOf(l.queue, h) == 0;
    assert Splice(l.queue, 0) == l.queue[1..];
  }

  /** The side index after remove_order unlinks an active order from level p
      (erasing p when that emptied it): every other level is kept as it was; p
      stays exactly when it held another order, and then keeps its other orders
      in their order and loses the order's quantity from its aggregate. */
  lemma UnlinkFromSide(side: map<int, Level>, p: int, h: nat, o: Order)
    requires p in side && o.isActive && h in side[p].queue && o.quantity <= side[p].totalQuantity
    requires side[p].orderCount == |side[p].queue|
    requires forall a, b :: 0 <= a < b < |side[p].queue| ==> side[p].queue[a] != side[p].queue[b]
    ensures var u := Unlink(side[p], h, o).0;
            var t := if IsEmpty(u) then side - {p} else side[p := u];
            && (forall k :: k in t ==> k in side)
            && (forall k :: k in side && k != p ==> k in t && t[k] == side[k])
            && (p in t <==> |side[p].queue| > 1)
            && (p in t ==> && t[p].queue == Without(side[p].queue, h)
                           && t[p].totalQuantity == side[p].totalQuantity - o.quantity)
  {
    UnlinkIsWithout(side[p], h, o);
  }

  /** Moving an order from level op to a level x at another price p: the
      levels at neither price are untouched, and the old level behaves as in
      UnlinkFromSide. */
  lemma MoveWithinSide(side: map<int, Level>, op: int, h: nat, o: Order, p: int, x: Level)
    requires op in side && o.isActive && h in side[op].queue && o.quantity <= side[op].totalQuantity
    requires side[op].orderCount == |side[op].queue| && p != op
    requires forall a, b :: 0 <= a < b < |side[op].queue| ==> side[op].queue[a] != side[op].queue[b]
    ensures var u := Unlink(side[op], h, o).0;
            var t := (if IsEmpty(u) then side - {op} else side[op := u])[p := x];
            && (forall k :: k in t ==> k in side || k == p)
            && (forall k :: k in side && k != p && k != op ==> k in t && t[k] == side[k])
            && (op in t <==> |side[op].queue| > 1)
            && (op in t ==> t[op].totalQuantity == side[op].totalQuantity - o.quantity)
  {
    UnlinkFromSide(side, op, h, o);
  }

  /** The queue with every occurrence of slot h filtered out, the others kept in
      their order. */
  function Without(q: seq<nat>, h: nat): (r: seq<nat>)
    ensures h !in r && |r| <= |q|
  {
    if q == [] then []
    else if q[0] == h then Without(q[1..], h)
    else [q[0]] + Without(q[1..], h)
  }

  lemma {:induction false} WithoutAbsent(q: seq<nat>, h: nat)
    requires h !in q
    ensures Without(q, h) == q
  {
    if q != [] {
      WithoutAbsent(q[1..], h);
      assert q == [q[0]] + q[1..];
    }
  }

  /** When slot h occurs once, splicing out its position is filtering it out. */
  lemma {:induction false} SpliceIsWithout(q: seq<nat>, h: nat)
    requires h in q && h !in q[IndexOf(q, h) + 1..]
    ensures Splice(q, IndexOf(q, h)) == Without(q, h)
  {
    if q[0] == h {
      assert Splice(q, 0) == q[1..];
      WithoutAbsent(q[1..], h);
    } else {
      var i := IndexOf(q[1..], h);
      assert IndexOf(q, h) == i + 1;
      assert q[1..][i + 1..] == q[i + 2..];
      SpliceIsWithout(q[1..], h);
      assert Splice(q, i + 1) == [q[0]] + Splice(q[1..], i);
    }
  }

  /** FIFO order survives a cancellation: unlinking an active order that is
      queued once leaves exactly the other orders, in their order. */
  lemma UnlinkIsWithout(l: Level, h: nat, o: Order)
    requires o.isActive && h in l.queue && o.quantity <= l.totalQuantity && l.orderCount >= 1
    requires forall a, b :: 0 <= a < b < |l.queue| ==> l.queue[a] != l.queue[b]
    ensures Unlink(l, h, o).0.queue == Without(l.queue, h)
  {
    var i := IndexOf(l.queue, h);
    assert h !in l.queue[i + 1..];
    SpliceIsWithout(l.queue, h);
  }

  /** The sum of the current quantities of the orders linked in a queue. */
  function QueueQty(q: seq<nat>, slots: map<nat, Order>): nat
    requires forall k :: 0 <= k < |q| ==> q[k] in slots
  {
    if q == [] then 0 else slots[q[0]].quantity + QueueQty(q[1..], slots)
  }

  lemma {:induction false} QueueQtyConcat(a: seq<nat>, b: seq<nat>, slots: map<nat, Order>)
    requires forall k :: 0 <= k < |a| ==> a[k] in slots
    requires forall k :: 0 <= k < |b| ==> b[k] in slots
    ensures QueueQty(a + b, slots) == QueueQty(a, slots) + QueueQty(b, slots)
  {
    if a != [] {
      assert (a + b)[1..] == a[1..] + b;
      QueueQtyConcat(a[1..], b, slots);
    } else {
      assert a + b == b;
    }
  }

  /** The sum only depends on the quantities of the queued orders, and it does
      not grow when none of them grows. */
  lemma {:induction false} QueueQtyMono(q: seq<nat>, s1: map<nat, Order>, s2: map<nat, Order>)
    requires forall k :: 0 <= k < |q| ==> q[k] in s1 && q[k] in s2
    requires forall k :: 0 <= k < |q| ==> s2[q[k]].quantity <= s1[q[k]].quantity
    ensures QueueQty(q, s2) <= QueueQty(q, s1)
  {
    if q != [] {
      QueueQtyMono(q[1..], s1, s2);
    }
  }

  lemma QueueQtySame(q: seq<nat>, s1: map<nat, Order>, s2: map<nat, Order>)
    requires forall k :: 0 <= k < |q| ==> q[k] in s1 && q[k] in s2
    requires forall k :: 0 <= k < |q| ==> s2[q[k]].quantity == s1[q[k]].quantity
    ensures QueueQty(q, s2) == QueueQty(q, s1)
  {
    QueueQtyMono(q, s1, s2);
    QueueQtyMono(q, s2, s1);
  }

  /** Splicing out position i removes exactly that order's quantity from the sum,
      so every queued order's quantity is at most the sum. */
  lemma QueueQtySplice(q: seq<nat>, i: nat, slots: map<nat, Order>)
    requires i < |q|
    requires forall k :: 0 <= k < |q| ==> q[k] in slots
    ensures QueueQty(Splice(q, i), slots) == QueueQty(q, slots) - slots[q[i]].quantity
  {
    assert q == q[..i] + ([q[i]] + q[i + 1..]);
    QueueQtyConcat(q[..i], [q[i]] + q[i + 1..], slots);
    QueueQtyConcat([q[i]], q[i + 1..], slots);
    QueueQtyConcat(q[..i], q[i + 1..], slots);
  }

  lemma QueueQtyAppend(q: seq<nat>, h: nat, slots: map<nat, Order>)
    requires h in slots
    requires forall k :: 0 <= k < |q| ==> q[k] in slots
    ensures QueueQty(q + [h], slots) == QueueQty(q, slots) + slots[h].quantity
  {
    QueueQtyConcat(q, [h], slots);
  }

  /** Replacing the quantity of the order at position i of a duplicate-free queue
      moves the sum by the difference. */
  lemma QueueQtyReplace(q: seq<nat>, i: nat, slots: map<nat, Order>, o: Order)
    requires i < |q|
    requires forall k :: 0 <= k < |q| ==> q[k] in slots
    requires forall a, b :: 0 <= a < b < |q| ==> q[a] != q[b]
    ensures QueueQty(q, slots[q[i] := o]) == QueueQty(q, slots) - slots[q[i]].quantity + o.quantity
  {
    var s2 := slots[q[i] := o];
    QueueQtySplice(q, i, slots);
    QueueQtySplice(q, i, s2);
    var r := Splice(q, i);
    forall k | 0 <= k < |r| ensures r[k] in slots && r[k] in s2 && s2[r[k]].quantity == slots[r[k]].quantity {
      assert r[k] != q[i] by {
        if k < i { assert r[k] == q[k]; } else { assert r[k] == q[k + 1]; }
      }
    }
    QueueQtySame(r, slots, s2);
  }
}
