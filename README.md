# Limit order book, modelled and proved in Dafny

This project models the limit order book of `capstone_project/order_book.cpp`
and the `Order` and `PriceLevel` records of `capstone_project/order_book.hpp`.
The book keeps two sides of price levels: bids, best price highest, and asks,
best price lowest. Every level holds a FIFO queue of resting orders and the
total quantity resting there. An id registry maps order ids to pool slots. A
free-list memory pool hands out order slots. `add_order` validates an order,
stores it at the tail of its level and runs the matching loop. The matching loop
trades the two front orders of the best levels while the book is crossed.
`cancel_order` and `amend_order` find an order by id. The accessors report the
best prices, the spread, the version and the top-of-book snapshot.

The model has two layers:

- **A value layer.** Modules `Records`, `Pool`, `Keys`, `Levels`, `BookState`,
  `Steps`, `Matching`, `Operations` and `Queries` describe the book state as a
  datatype. Every operation of the source is a function on it, written branch by
  branch as the source performs it.
  - The invariant `BookState.Inv` states what a well-formed book is:
    - every level is stored under its own price;
    - every level is non-empty and its count equals its queue length;
    - every queued slot holds an order of that side and price;
    - every level's aggregate covers the quantities queued there;
    - every stored order is queued in exactly the level of its price;
    - every registered id names a stored order carrying that id, and every
      active order is registered;
    - every stored slot is outstanding in the pool;
    - every active order has a positive quantity.
  - Lemmas prove that every operation keeps `Inv`, and they state what each
    operation promises.
- **An object layer.** Classes `Pool.SlotPool` and `Book.OrderBook` hold the
  source's fields and update them in place. Each method is proved to leave
  exactly the state, and return exactly the results, of the corresponding
  function. The loop of `match_orders` is a `while` loop whose invariant ties the
  trades so far to the function `Matching.Drain`.

Prices are integer ticks of 0.01. `MIN_PRICE` 0.01 is tick 1 and `MAX_PRICE`
1000000.0 is tick 100000000. `numeric_limits<double>::max()` (the best ask of an
empty ask side) becomes `NO_ASK`, one tick above `MAX_PRICE`. Console output of
`match_orders` becomes a returned sequence of `Trade` values. The error messages
of `add_order` become a returned `Status`.

Behaviour of the source that the model reproduces:

- A price-changing `amend_order` unlinks the order with `remove_order`, which
  clears `is_active`. `add_order` of the level never sets the flag again, so the
  order rests inactive at the tail of its new level.
  - It is never matched (the loop stops at an inactive front order).
  - It can be neither cancelled nor amended again.
- A fill lowers the quantities of the two orders (cpp 294-295) but not the
  `total_quantity` of their levels, and `remove_order` of a filled order then
  subtracts its remaining quantity, which is 0. A level that survives a trade
  therefore keeps reporting the quantity already traded (`Matching.TotalsKept`).
- `amend_order` does not run the matching loop. A book can therefore stay
  crossed after an amend.

## Model

| member | source | states |
|---|---|---|
| Records.NewOrder | capstone_project/order_book.hpp:20-21 | the five fields are taken from the arguments; the links are null and the order is active |
| Records.CopyOrder | capstone_project/order_book.hpp:23-27 | the copy has the data fields and the active flag of the original; its links are null |
| Records.AssignOrder | capstone_project/order_book.hpp:29-41 | self-assignment leaves the order as it is; otherwise the data fields and the flag are copied and the links are reset to null |
| Records.AssignIsCopy | capstone_project/order_book.hpp:23-41 | assignment from another object gives the same order as the copy constructor |
| Records.CopyFixesUnlinked | capstone_project/order_book.hpp:23-27 | a copy equals its original exactly when the original is unlinked |
| Records.DefaultPriceLevel | capstone_project/order_book.hpp:48 | the default level has price 0 and quantity 0 |
| Records.MakePriceLevel | capstone_project/order_book.hpp:49 | the level carries the given price and quantity |
| Pool.InitialPool | capstone_project/order_book.cpp:29-31 | a fresh pool is well formed, has issued nothing and has an empty free list, so no slot is outstanding |
| Pool.Allocated | capstone_project/order_book.cpp:33-44 | a non-empty free list gives its head; otherwise the next unissued slot is bumped out; a full block (position = BLOCK_SIZE) first opens a new block and resets the position |
| Pool.Released | capstone_project/order_book.cpp:46-50 | releasing null changes nothing; releasing a slot pushes it on the free list; the bump state is untouched |
| Pool.AllocateFresh | capstone_project/order_book.cpp:33-44 | allocation hands out a slot that was not outstanding, makes it outstanding and keeps every other slot's status |
| Pool.ReleaseKeeps | capstone_project/order_book.cpp:46-50 | releasing an outstanding slot makes it free, keeps the pool well formed and keeps every other slot's status |
| Pool.NewBlock | capstone_project/order_book.cpp:53-62 | one more block, the free list kept; a well-formed pool stays well formed; opening a block when the current one is full changes no slot's status |
| Pool.LastReleasedFirstReused | capstone_project/order_book.cpp:33-37 | the slot released last is the next one allocated (LIFO free list), and the pool returns to its state before the release |
| Pool.FreshSlotsConsecutive | capstone_project/order_book.cpp:39-43 | with an empty free list, two allocations in a row give consecutive slots, across block boundaries too |
| Pool.SlotPool.constructor | capstone_project/order_book.cpp:29-31 | the new pool's state is the initial pool |
| Pool.SlotPool.Allocate | capstone_project/order_book.cpp:33-44 | the new state and the returned slot are those of Allocated |
| Pool.SlotPool.Deallocate | capstone_project/order_book.cpp:46-50 | the new state is that of Released |
| Pool.SlotPool.AllocateNewBlock | capstone_project/order_book.cpp:53-62 | one more block; the current block is the new one, at position 0 |
| Pool.SlotPool.PopFreeList | capstone_project/order_book.cpp:64-71 | gives null and changes nothing on an empty free list; otherwise gives the head and drops it |
| Pool.SlotPool.PushFreeList | capstone_project/order_book.cpp:73-76 | the slot becomes the head of the free list |
| Keys.MaxKey | capstone_project/order_book.cpp:157 | the highest key is a member and no key exceeds it (the first entry of the bid map ordered by greater) |
| Keys.MinKey | capstone_project/order_book.cpp:158 | the lowest key is a member and no key is below it (the first entry of the ask map) |
| Keys.BestKey | capstone_project/order_book.cpp:157-158 | the best key of a side is a member and comes before every other key in that side's order |
| Levels.NewLevel | capstone_project/order_book.cpp:88 | a new level has the price, no quantity, an empty queue, is active and is empty |
| Levels.Append | capstone_project/order_book.cpp:107-121 | the order joins the tail of the queue; the total grows by its quantity and the count by one |
| Levels.IsEmpty | capstone_project/order_book.cpp:149-151 | a level whose count matches its queue is empty exactly when its queue is empty |
| Levels.Unlink | capstone_project/order_book.cpp:123-147 | an inactive order changes nothing; an active order is marked inactive and spliced out of the queue at its position; the total drops by its quantity and the count by one |
| Levels.AppendThenUnlink | capstone_project/order_book.cpp:107-147 | unlinking the order just appended gives back the level as it was |
| Levels.UnlinkIsWithout | capstone_project/order_book.cpp:123-147 | in a queue without duplicates, unlinking leaves exactly the other orders in their order |
| Levels.UnlinkFront | capstone_project/order_book.cpp:123-147 | unlinking the head of a queue drops exactly the head and one from the count; the level is left empty exactly when the head was its only order |
| Levels.UnlinkFromSide | capstone_project/order_book.cpp:123-147 | after unlinking an order from level p of a side (erasing p when it empties), every other level is unchanged, p stays exactly when it held another order, and then its queue is the old one without the order and its total has lost the order's quantity |
| Levels.MoveWithinSide | capstone_project/order_book.cpp:449-467 | moving an order from one level to a level at another price leaves every level at neither price unchanged; the old level behaves as in UnlinkFromSide |
| BookState.CheckFields | capstone_project/order_book.cpp:338-351 | accepted exactly when the id is non-zero, the price is in range and the quantity is in 1..MAX_ORDER_QUANTITY; the error reported is the first check that fails, in source order |
| BookState.GetLevel | capstone_project/order_book.cpp:226-234 | a level is found exactly when the side holds that price, and it is that level |
| BookState.GetOrCreateLevel | capstone_project/order_book.cpp:192-224 | afterwards the price is present; an existing level is kept; otherwise an empty level is created; nothing else changes |
| BookState.RemovePriceLevel | capstone_project/order_book.cpp:236-250 | the price is erased from its side; nothing else changes |
| BookState.EmptyBookInv | capstone_project/order_book.cpp:155-164 | the freshly constructed book satisfies the invariant |
| BookState.EmptyBook | capstone_project/order_book.cpp:155-164 | the constructed book has no levels, no orders, no registry entries, version 0, is not matching, and its pool has no outstanding slot |
| Steps.Detach | capstone_project/order_book.cpp:123-147 | unlinking an order and forgetting it removes it from the stored orders and the registry and keeps the other side; its own side becomes exactly the side with the order's level unlinked, or without that level when it was left empty |
| Steps.Attach | capstone_project/order_book.cpp:107-121 | linking an order at a slot stores and registers it and appends it to its level (created when absent); the other side is untouched |
| Steps.QueuedBound | capstone_project/order_book.cpp:123-147 | in a well-formed book, every stored order sits in the queue of the level of its price, and that level's total covers its quantity |
| Steps.DetachKeepsInv | capstone_project/order_book.cpp:123-147 | detaching an active order keeps the structural invariant and leaves its slot outstanding and unused |
| Steps.AttachKeepsInv | capstone_project/order_book.cpp:107-121 | attaching an order at an outstanding unused slot under a fresh id keeps the structural invariant |
| Matching.RemoveFilled | capstone_project/order_book.cpp:310-329 | an unfilled order changes nothing and reports false; a filled order is unlinked, unregistered and its slot released, its side becomes the side with its level unlinked (erased when emptied), and the result is true exactly when its level was erased |
| Matching.TradePrice | capstone_project/order_book.cpp:288-289 | the trade takes the price of the earlier order, the bid's when the timestamps are equal |
| Matching.CanMatch | capstone_project/order_book.cpp:260-282 | when the loop may trade, both best levels have a front order, stored; the bid front is a buy, the ask front a sell, both have positive quantity and the bid price is at least the ask price |
| Matching.MatchStep | capstone_project/order_book.cpp:260-304 | one pass of the loop trades exactly when CanMatch holds, and then it is Execute |
| Matching.Filled | capstone_project/order_book.cpp:294-295 | both orders lose the traded quantity; every other order is untouched; no order is added or removed |
| Matching.FillFront | capstone_project/order_book.cpp:284-295 | the fill of the two front orders: every order keeps its data, quantities only fall, at least one front is filled to zero, and only fronts (or orders already at zero) are at zero |
| Matching.CanMatchIff | capstone_project/order_book.cpp:260-282 | the loop trades exactly when both sides are non-empty, the best bid is at least the best ask and both front orders are active |
| Matching.TradeAt | capstone_project/order_book.cpp:284-298 | the trade names the two orders, the smaller of their quantities and the time-priority price |
| Matching.TradeAtFrame | capstone_project/order_book.cpp:294-329 | one trade touches no stored order but the two it trades and does not change the version |
| Matching.TradeAtOrders | capstone_project/order_book.cpp:294-329 | an order that keeps quantity stays stored with the traded quantity taken off; an order filled to zero is no longer stored |
| Matching.TradeAtBids | capstone_project/order_book.cpp:294-329 | the bid side is unchanged while the bid keeps quantity; otherwise the bid is unlinked from its level, which is erased when it held no other order |
| Matching.TradeAtAsks | capstone_project/order_book.cpp:294-329 | the ask side, as for the bid side |
| Matching.Execute | capstone_project/order_book.cpp:284-304 | one round fills both fronts by the smaller quantity, removes every order it filled, keeps every level's aggregate as it was and reports a positive trade naming the two front orders; the set of stored orders strictly shrinks |
| Matching.ExecuteIsTradeAt | capstone_project/order_book.cpp:277-298 | a round of the loop is TradeAt on the two front orders of the best levels |
| Matching.ExecuteKeys | capstone_project/order_book.cpp:294-329 | a round removes from the stored orders exactly the fronts it filled to zero |
| Matching.ExecuteSides | capstone_project/order_book.cpp:294-329 | each front is the head of its best level; a front that keeps quantity leaves its side unchanged; a filled front leaves the head of its level, which keeps its other orders in order and is erased when the front was its only order; no other level changes |
| Matching.BidFrontTradesFirst | capstone_project/order_book.cpp:277-304 | FIFO at the best bid price: with two or more orders queued, the head trades first; the level stays, and it either keeps its queue (the head still rests) or loses exactly the head |
| Matching.AskFrontTradesFirst | capstone_project/order_book.cpp:277-304 | FIFO at the best ask price, as for the bids |
| Matching.ExecuteKeepsInv | capstone_project/order_book.cpp:284-304 | one round of matching keeps the invariant |
| Matching.Drain | capstone_project/order_book.cpp:259-305 | repeating rounds ends in a well-formed book where the loop would stop, with positive trades, and reports no trade exactly when the loop would not start |
| Matching.Match | capstone_project/order_book.cpp:252-308 | re-entry returns at once with no trade; otherwise the result keeps the invariant, the version and the flag, only removes orders and reports positive trades |
| Matching.MatchExit | capstone_project/order_book.cpp:260-282 | after matching, a book that is still crossed has an inactive front order |
| Matching.UncrossedUnchanged | capstone_project/order_book.cpp:260-268 | an uncrossed book is left exactly as it is, without trades |
| Matching.CrossedTrades | capstone_project/order_book.cpp:260-304 | a crossed book with active fronts trades, and the first trade is between the two front orders |
| Operations.Stored | capstone_project/order_book.cpp:358-368 | the stored copy has the order's data, is active and unlinked |
| Operations.Accept | capstone_project/order_book.cpp:357-379 | storing an accepted order: it takes the slot allocation hands out, is registered under its id and is appended to the level of its price on its side (created when absent); the other side and the matching flag are kept and the version bumps once |
| Operations.RemoveOrder | capstone_project/order_book.cpp:406-414 | the order is unlinked from its level; an emptied level is erased; a missing level changes nothing |
| Operations.Relink | capstone_project/order_book.cpp:462-467 | the order is stored at its slot and appended to the level of its price, created when absent |
| Operations.InsertStatus | capstone_project/order_book.cpp:337-356 | accepted exactly when the fields are valid and the id is not registered; a duplicate id is reported only for otherwise valid orders |
| Operations.Insert | capstone_project/order_book.cpp:337-382 | a rejected order changes nothing; an accepted one is the matching run on the book with the order stored (Accept), which keeps the invariant, bumps the version once and reports only positive trades |
| Operations.Cancel | capstone_project/order_book.cpp:384-419 | succeeds exactly for a registered active order; it is unregistered and its slot released, both sides become those of remove_order on it, and the version bumps; an inactive order is only unregistered; unknown ids change nothing |
| Operations.Reprice | capstone_project/order_book.cpp:449-467 | moving an order keeps the registry, the set of stored slots, the pool and the version |
| Operations.Requantify | capstone_project/order_book.cpp:468-478 | fails exactly when the order's level is missing; otherwise only the order's quantity and its level's total change, by the difference |
| Operations.AmendAt | capstone_project/order_book.cpp:448-481 | a price change reprices; the same price requantifies in place; success bumps the version once |
| Operations.Amend | capstone_project/order_book.cpp:421-482 | succeeds exactly when the fields are valid, the id names an active order and, at the same price, its level exists; failure changes nothing |
| Operations.AcceptKeepsInv | capstone_project/order_book.cpp:357-378 | storing an accepted order keeps the invariant |
| Operations.CancelKeepsInv | capstone_project/order_book.cpp:384-419 | cancel keeps the invariant |
| Operations.AmendKeepsInv | capstone_project/order_book.cpp:421-482 | amend keeps the invariant |
| Operations.InvAmendSucceeds | capstone_project/order_book.cpp:421-482 | in a well-formed book, amend succeeds exactly when the fields are valid and the id names an active order |
| Operations.InvLinkedId | capstone_project/order_book.cpp:396-406 | in a well-formed book, every registered order is stored and an active one is queued in its level |
| Queries.BestBid | capstone_project/order_book.cpp:545-548 | no bids read as 0; with levels stored under their prices, the result is a bid price and no bid exceeds it |
| Queries.BestAsk | capstone_project/order_book.cpp:550-553 | no asks read as the sentinel; with levels stored under their prices, the result is an ask price and no ask is below it |
| Queries.Spread | capstone_project/order_book.cpp:555-558 | no asks read as 0; otherwise, unless the best ask is the sentinel, the best bid plus the spread is the best ask |
| Queries.Version | capstone_project/order_book.cpp:560-562 | the version counter |
| Queries.OrderCount | capstone_project/order_book.cpp:564-566 | counts registry entries: zero exactly when no id is registered |
| Queries.BidLevels | capstone_project/order_book.cpp:568-570 | zero exactly when there are no bid levels |
| Queries.AskLevels | capstone_project/order_book.cpp:572-574 | zero exactly when there are no ask levels |
| Queries.Snapshot | capstone_project/order_book.cpp:484-503 | each side lists min(depth, levels) entries |
| Queries.BestBidIsHighest | capstone_project/order_book.cpp:545-548 | 0 exactly when there are no bids; otherwise a bid price no bid exceeds |
| Queries.BestAskIsLowest | capstone_project/order_book.cpp:550-553 | the sentinel exactly when there are no asks; otherwise a valid ask price no ask is below |
| Queries.SpreadMeaning | capstone_project/order_book.cpp:555-558 | 0 exactly without asks or when the best prices meet; the best ask without bids; positive exactly when the book is not crossed |
| Queries.TopLevels | capstone_project/order_book.cpp:484-503 | lists min(depth, levels) levels |
| Queries.TopLevelsOrdered | capstone_project/order_book.cpp:484-503 | the listed levels are strictly in the side's priority order |
| Queries.TopLevelsNoneSkipped | capstone_project/order_book.cpp:484-503 | no level of the side that is better than a listed one is missing from the list before it |
| Queries.TopLevelsListsBest | capstone_project/order_book.cpp:484-503 | the list consists of the side's levels with their aggregates, best first, skipping none |
| Queries.SnapshotMeaning | capstone_project/order_book.cpp:484-503 | each side of the snapshot has min(depth, levels) entries and lists that side's best levels in order with their totals |
| Properties.AcceptJoinsTail | capstone_project/order_book.cpp:357-378 | an accepted order takes a slot no stored order holds, is registered and joins the tail of its level behind every resting order; only that level's total grows, by its quantity |
| Properties.MatchWithoutTrades | capstone_project/order_book.cpp:252-308 | a matching run without trades leaves the book exactly as it was |
| Properties.InsertThenCancel | capstone_project/order_book.cpp:337-419 | cancelling right after an add that did not trade succeeds and restores the sides, the registry and the stored orders; the version is up by two |
| Properties.CancelTwice | capstone_project/order_book.cpp:384-419 | a second cancel of the same id reports false and changes nothing |
| Properties.CancelLeavesOthers | capstone_project/order_book.cpp:384-419 | a successful cancel leaves the other side alone and every other level of its side unchanged; its level stays exactly when it held another order, and then its queue is the old one without the order and its total has lost the order's quantity |
| Properties.CancelAsWritten | capstone_project/order_book.cpp:396-403 | as written, cancelling an inactive order reports false, keeps both sides and the stored orders, erases the id and leaves its slot free in the pool |
| Properties.CancelInactiveReusesLinkedSlot | capstone_project/order_book.cpp:396-403 | as written, cancelling an inactive order gives its slot to the next allocation while the order is still queued in its level |
| Properties.CancelInactiveKeepsSlot | capstone_project/order_book.cpp:396-403 | the model's cancel keeps the invariant, and the next allocation does not hand out the inactive order's slot |
| Properties.AmendMovesToTail | capstone_project/order_book.cpp:448-467 | a price change moves the order, inactive, to the tail of the new price's level with the new price and quantity; its old level becomes the queue without it; its side is the side after remove_order with the new level installed; the other side and the registry are untouched |
| Properties.AmendLeavesOthers | capstone_project/order_book.cpp:448-467 | a price change leaves every level of the order's side at neither price unchanged; the old level stays exactly when it held another order, and then has lost the order's quantity; no other price appears |
| Properties.AmendInPlace | capstone_project/order_book.cpp:468-478 | the same price only changes the quantity: the queue position stays and the total becomes total - old + new |
| Book.OrderBook.constructor | capstone_project/order_book.cpp:333 | the new book is the empty book and satisfies the invariant |
| Book.OrderBook.GetOrCreateLevel | capstone_project/order_book.cpp:192-224 | the object ends in the state of BookState.GetOrCreateLevel |
| Book.OrderBook.RemovePriceLevel | capstone_project/order_book.cpp:236-250 | the object ends in the state of BookState.RemovePriceLevel |
| Book.OrderBook.UnlinkOrder | capstone_project/order_book.cpp:406-414 | the object's state and the unlinked order are those of RemoveOrder |
| Book.OrderBook.RemoveFilledOrder | capstone_project/order_book.cpp:310-329 | the object's state and the result are those of RemoveFilled |
| Book.OrderBook.MatchOrders | capstone_project/order_book.cpp:252-308 | the loop leaves the object in the state, with the trades, of Match |
| Book.OrderBook.CheckFronts | capstone_project/order_book.cpp:260-282 | reports whether the loop may trade, with the best prices and front orders when it may |
| Book.OrderBook.TradeFronts | capstone_project/order_book.cpp:284-304 | one round of trading; it reports which side lost its level |
| Book.OrderBook.PlaceOrder | capstone_project/order_book.cpp:357-378 | the object ends in the state of Accept |
| Book.OrderBook.ReleaseOrder | capstone_project/order_book.cpp:406-418 | the order is unlinked, forgotten and its slot released; the version bumps |
| Book.OrderBook.MoveOrder | capstone_project/order_book.cpp:449-467 | the object ends in the state of Reprice |
| Book.OrderBook.ResizeOrder | capstone_project/order_book.cpp:468-478 | reports whether the level was found and ends in the state of Requantify |
| Book.OrderBook.AddOrder | capstone_project/order_book.cpp:337-382 | keeps the invariant; the new state, status and trades are those of Insert |
| Book.OrderBook.CancelOrder | capstone_project/order_book.cpp:384-419 | keeps the invariant; the new state and the result are those of Cancel |
| Book.OrderBook.CancelOrderBody | capstone_project/order_book.cpp:384-419 | under the weaker precondition that a registered id is linked, the object ends in the state, with the result, of Cancel |
| Book.OrderBook.AmendOrder | capstone_project/order_book.cpp:421-482 | keeps the invariant; the new state and the result are those of Amend |
| Book.OrderBook.AmendOrderBody | capstone_project/order_book.cpp:421-482 | under the weaker precondition that a registered id is linked, the object ends in the state, with the result, of Amend |
| Book.OrderBook.GetSnapshot | capstone_project/order_book.cpp:484-503 | returns the snapshot of the current state |
| Book.OrderBook.CollectLevels | capstone_project/order_book.cpp:487-502 | the loop over a side collects exactly TopLevels |
| Book.OrderBook.GetBestBid | capstone_project/order_book.cpp:545-548 | returns BestBid of the current state |
| Book.OrderBook.GetBestAsk | capstone_project/order_book.cpp:550-553 | returns BestAsk of the current state |
| Book.OrderBook.GetSpread | capstone_project/order_book.cpp:555-558 | returns Spread of the current state |
| Book.OrderBook.GetVersion | capstone_project/order_book.cpp:560-562 | returns the version counter |
| Book.OrderBook.GetOrderCount | capstone_project/order_book.cpp:564-566 | returns the number of registered ids |
| Book.OrderBook.GetBidLevels | capstone_project/order_book.cpp:568-570 | returns the number of bid levels |
| Book.OrderBook.GetAskLevels | capstone_project/order_book.cpp:572-574 | returns the number of ask levels |

## Findings

| source | as written | input that shows it | evidently intended | confidence | as-written member | corrected member |
|---|---|---|---|---|---|---|
| capstone_project/order_book.cpp:396-403 | `cancel_order` of a registered but inactive order erases the id and hands the order's slot back to the pool, but the order is still linked in its level | add_order(1, buy, 100.00, qty 10); amend_order(1, 101.00, 10) leaves order 1 inactive at the tail of level 101.00; cancel_order(1) releases its slot; the next add_order takes that slot and overwrites an order that level 101.00 still links | an order that is still linked keeps its slot; only the registry entry goes | high, not executed | Properties.CancelAsWritten, Properties.CancelInactiveReusesLinkedSlot | Operations.Cancel, Properties.CancelInactiveKeepsSlot |

## Left out

- Operations.Cancel: for an inactive order it erases the id but keeps the slot, unlike the source (see Findings).
- The level pool (`level_pool_`): levels are values in the side maps, so a level's allocation and release are not modelled.
- The intrusive `first_order`/`last_order`/`next`/`prev` links: each level's queue is a sequence of slots. Stale links of unlinked orders are not modelled. No operation of the core reads them: `remove_order` returns before touching an inactive order.
- Floating-point prices: prices are integer ticks. The NaN and infinity checks of `add_order` (cpp 343) and `amend_order` (cpp 427) have no counterpart, and prices compare exactly.
- 64-bit wrap-around of quantities, totals and the version: they are unbounded naturals. Under the invariant no total ever goes below zero.
- Console and error output: MATCH lines become `Trade` values; the error messages of `add_order` become a `Status`; those of `cancel_order` and `amend_order` become the false result.
- `print_book` (cpp 505-543): output formatting only.
- Allocation failure: allocation never fails in the model, so the null checks of `add_order` (cpp 358-362 and the `get_or_create_level` failure at 371-376), the failed `get_or_create_level` of `amend_order` (cpp 462-466, which would leave the order unlinked and report false) and the `bad_alloc` path of `allocate_new_block` are not modelled.
- The destructors (cpp 166-190, 335): the model does not release memory at teardown.
- Book.OrderBook.CancelOrder and Book.OrderBook.AmendOrder require the invariant: `CancelOrderBody` and `AmendOrderBody` carry the proofs under the weaker precondition that the registry entry is linked, and the public methods add the invariant.
- The scenarios of `capstone_project/main.cpp` are not modelled.
