/** The value records of capstone_project/order_book.hpp: an order as a caller
    submits it (with the two intrusive links and the active flag the book uses
    internally), and a (price, aggregate quantity) pair as a snapshot reports it.
    Prices are integer ticks of 0.01. */
module Records {

  /** A pointer to an order slot of the pool, or null. */
  datatype Ptr = Null | At(slot: nat)

  datatype Order = Order(
    orderId: nat,
    isBuy: bool,
    price: int,
    quantity: nat,
    timestampNs: nat,
    next: Ptr,
    prev: Ptr,
    isActive: bool)

  datatype PriceLevel = PriceLevel(price: int, totalQuantity: nat)

  /** The five caller-supplied fields of two orders agree. */
  predicate SameData(a: Order, b: Order)
  {
    && a.orderId == b.orderId
    && a.isBuy == b.isBuy
    && a.price == b.price
    && a.quantity == b.quantity
    && a.timestampNs == b.timestampNs
  }

  /** The five-argument constructor: links start null and the order starts active. */
  function NewOrder(id: nat, buy: bool, p: int, qty: nat, ts: nat): (o: Order)
    ensures o.orderId == id && o.isBuy == buy && o.price == p
    ensures o.quantity == qty && o.timestampNs == ts
    ensures o.next == Null && o.prev == Null && o.isActive
  {
    Order(id, buy, p, qty, ts, Null, Null, true)
  }

  /** The copy constructor: data and active flag are copied, the links are not. */
  function CopyOrder(other: Order): (o: Order)
    ensures SameData(o, other) && o.isActive == other.isActive
    ensures o.next == Null && o.prev == Null
  {
    Order(other.orderId, other.isBuy, other.price, other.quantity, other.timestampNs,
          Null, Null, other.isActive)
  }

  /** Copy assignment `self = other`; `sameObject` says whether both name one
      object, in which case nothing is written and the links survive. */
  function AssignOrder(self: Order, other: Order, sameObject: bool): (o: Order)
    requires sameObject ==> self == other
    ensures sameObject ==> o == self
    ensures !sameObject ==> SameData(o, other) && o.isActive == other.isActive
    ensures !sameObject ==> o.next == Null && o.prev == Null
  {
    if sameObject then self
    else self.(orderId := other.orderId, isBuy := other.isBuy, price := other.price,
               quantity := other.quantity, timestampNs := other.timestampNs,
               next := Null, prev := Null, isActive := other.isActive)
  }

  /** Assigning over any other object yields what copying would. */
  lemma AssignIsCopy(self: Order, other: Order)
    ensures AssignOrder(self, other, false) == CopyOrder(other)
  {
  }

  /** Copying leaves an order unchanged exactly when both of its links are null. */
  lemma CopyFixesUnlinked(o: Order)
    ensures CopyOrder(o) == o <==> o.next == Null && o.prev == Null
  {
  }

  /** PriceLevel(): price 0, quantity 0. */
  function DefaultPriceLevel(): (l: PriceLevel)
    ensures l.price == 0 && l.totalQuantity == 0
  {
    PriceLevel(0, 0)
  }

  /** PriceLevel(p, qty) stores exactly what it is given. */
  function MakePriceLevel(p: int, qty: nat): (l: PriceLevel)
    ensures l.price == p && l.totalQuantity == qty
  {
    PriceLevel(p, qty)
  }
}
