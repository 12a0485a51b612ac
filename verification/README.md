# hermes order container, modelled in Dafny

A model of one side of the hermes limit-order book: the price-level container
`RBTreeContainer` with its FIFO crossing algorithm, and the `Order` value type
it stores.

The container keeps three things. The first is a map from price to a FIFO list
of resting orders, ordered by a comparator (`std::less` for asks, so the lowest
price is best; `std::greater` for bids). The second is a hash index from order
identifier to that order's list position. The third is a size counter. It
offers `size`, `contains`, `find`, `insert`, `modify`, `remove`, `bestPrice`
and `cross`. `cross` fills an incoming opposite-side order under price-time
priority: best level first, oldest order first within a level, and only while
the level is at the incoming limit or better.

## How it is modelled

- `orders.dfy` (`Orders`): `Order` is an immutable datatype. `setQuantity` is
  `Order.SetQuantity`, which returns the order with only its quantity replaced.
  The three constructors are functions.
- `policy.dfy` (`Policy`): the comparator is `Compare = Less | Greater`.
  `Better` is `cmp_fn_`. `Marketable` is the crossing guard "at the limit or
  better".
- `levels.dfy` (`Levels`): the price map is a sequence of `Level(price,
  orders)`, best level first, which is the red-black tree's iteration order.
  - `Queue(levels, p)` is the FIFO list at price `p`; it is empty when `p` has
    no level.
  - `Flat(levels)` is every resting order in priority order.
  - `Enqueue`, `Dequeue` and `Requeue` are the list and map operations the
    container performs: `push_back`, with the level created on demand; `erase`,
    with the level deleted once empty; and the in-place quantity update.
- `container.dfy` (`Container`): `Book(cmp, levels, index, size)`.
  - The index maps an identifier to the price of the level it rests in. The
    order's position in that level is found by its identifier, since
    identifiers are unique; iterator identity is not modelled.
  - `Valid` is the container invariant: levels strictly sorted by the
    comparator (so no duplicate price), no empty level, every order of a level
    at the level's price with distinct identifiers and indexed at that price,
    every index entry resting in the queue at its price, and `size` the number
    of resting orders.
  - Every operation keeps `Valid`.
- `crossing.dfy` (`Crossing`): `Cross` is the crossing loop as a recursive
  function, with the measure `size + incoming quantity`. One iteration is
  `FillFront`, which fills the front order of the best level.
  - `Match` is an independent reference definition of price-time priority. It
    fills against a single queue that is already in priority order.
  - `MatchIsPriceTimePriority` states what `Match` produces, and
    `PriceTimePriorityIsMatch` shows that this statement admits no other
    outcome.
  - `CrossMatchesPriorityOrder` proves that `Cross` on a container does
    exactly what `Match` does on the container's priority order `Flat`: the
    same trades, the same remaining incoming order, and the resting orders
    left in the same order.

The model follows the intended semantics of `remove` and `cross`. Both act on
the live price level.

- At `src/orderbook/Container.hxx:166`, `remove` takes the level by value.
  Erasing a live-list iterator through that copy is undefined behaviour in C++,
  so it has no as-written meaning to model.
- At `src/orderbook/Container.hxx:195`, `cross` walks a by-value snapshot of
  the best level. This gives the same trades as walking the live level. Each
  snapshot entry is visited once while the live order still has the snapshot
  quantity. Only a partial fill leaves an order in place, and a partial fill
  ends the walk. So `Cross` models the walk as repeated fills of the live
  front order.

## Model

| member | source | states |
|---|---|---|
| `Orders.Order.SetQuantity` | src/orderbook/Order.hxx:49 | `setQuantity(q)` makes the quantity `q` and leaves identifier, price, side, venue and type tag as they were |
| `Orders.SetQuantityOverwrites` | src/orderbook/Order.hxx:49 | `setQuantity` overwrites the quantity and nothing else: setting twice keeps the last value, and setting an order's own quantity gives the order back |
| `Orders.DefaultOrder` | src/orderbook/Order.hxx:28-30 | the default order has identifier, price, quantity and venue 0, is a sell order, and has the value-initialised type tag |
| `Orders.NewLimitOrder` | src/orderbook/Order.hxx:32-35 | the five-argument constructor builds a `Limit` order, the same order as the six-argument constructor with type `Limit` |
| `Orders.NewOrder` | src/orderbook/Order.hxx:37-47 | every accessor returns the argument given to the six-argument constructor |
| `Policy.BetterIsStrictTotal` | src/orderbook/Container.hxx:34-35 | both comparators are strict total orders on prices: irreflexive, asymmetric, total on distinct prices, transitive |
| `Policy.MarketableIsUpwardClosed` | src/orderbook/Container.hxx:190-192 | a price better than a marketable price is marketable, so the marketable levels form a prefix of the level order |
| `Levels.Without` | src/orderbook/Container.hxx:169 | erasing an order from a list drops exactly that order, keeps the others in their relative order, and removes exactly its identifier |
| `Levels.Enqueue` | src/orderbook/Container.hxx:83-84 | `priceLevels_[price].push_back`: the order joins the back of the queue at its price, and the level is created in its sorted place when absent; other queues, the sort order and the set of prices otherwise stay the same |
| `Levels.Dequeue` | src/orderbook/Container.hxx:165-175 | erasing an order from the queue at its price leaves the other queues alone, and deletes the level exactly when that queue had one order |
| `Levels.Requeue` | src/orderbook/Container.hxx:219-220 | a quantity update through the index changes the one order in place: same queue positions, same prices, other queues untouched |
| `Container.Empty` | src/orderbook/Container.hxx:57 | a new container is valid, has size 0, holds no identifier and has no queue at any price |
| `Container.Size` | src/orderbook/Container.hxx:62 | `size` equals the number of resting orders and the number of index entries |
| `Container.ContainsMeansResting` | src/orderbook/Container.hxx:67 | `contains(id)` holds exactly when an order with that identifier rests in some level |
| `Container.IndexMatchesLevels` | src/orderbook/Container.hxx:55 | the index keys are exactly the identifiers of the resting orders, and no identifier rests twice |
| `Container.Find` | src/orderbook/Container.hxx:76 | `find` of an indexed identifier returns the resting order with that identifier, which is in the queue at its indexed price |
| `Container.BestPrice` | src/orderbook/Container.hxx:235 | `bestPrice` of a non-empty container is a price with a non-empty queue and is better than every other price: the minimum under `std::less` and the maximum under `std::greater` |
| `Container.Insert` | src/orderbook/Container.hxx:81-91 | inserting a fresh identifier keeps the invariant, adds one to `size`, indexes the order at its price, appends it to the back of that queue (the level created if absent), and changes no other queue or index entry |
| `Container.Remove` | src/orderbook/Container.hxx:161-179 | removing an indexed identifier keeps the invariant, subtracts one from `size`, unindexes it, erases it from its queue with the other orders kept in order, deletes the level exactly when it empties, and changes no other queue or index entry |
| `Container.InsertThenRemove` | src/orderbook/Container.hxx:161-179 | removing an order just inserted gives back exactly the container one started from |
| `Container.SetRestingQuantity` | src/orderbook/Container.hxx:125-127 | the in-place quantity update keeps the invariant, the size and the index, and changes only the one order's quantity in its queue |
| `Container.Modify` | src/orderbook/Container.hxx:115-133 | `modify` with quantity 0 is `remove`; with the resting price it changes only that order's quantity, in place; with a new price it erases the order from the old queue and appends the new order to the back of the new price's queue; a kept order is indexed at the new price, every other identifier keeps its membership and its indexed price, and the size drops by one exactly when the order is removed |
| `Container.FlatOrdered` | src/orderbook/Container.hxx:54 | in the container's priority order, identifiers are distinct, each order is indexed at its own price, and prices never get better along the order |
| `Crossing.BestNotMarketable` | src/orderbook/Container.hxx:190-192 | when the best level is beyond the incoming limit, every level is, so the crossing loop may stop there |
| `Crossing.FillQueueFront` | src/orderbook/Container.hxx:199-221 | one fill makes one trade between the incoming order and the front order, at the front order's price, for the smaller of the two quantities; the incoming order keeps everything but its quantity, and its quantity drops by the fill; a front order no larger than the incoming quantity leaves the queue, a larger one stays at the front with the incoming quantity deducted; queue length plus incoming quantity strictly drops |
| `Crossing.FillFront` | src/orderbook/Container.hxx:199-221 | one iteration on the container keeps the invariant and changes its priority order, the incoming order and the trade exactly as `FillQueueFront` does on the priority order; the trade is at the best level's price and orders plus incoming quantity strictly drop |
| `Crossing.Cross` | src/orderbook/Container.hxx:184-229 | crossing keeps the container valid with the same comparator and never adds resting orders |
| `Crossing.CrossOutcome` | src/orderbook/Container.hxx:190-226 | after `cross` the incoming order differs only in quantity; traded volume plus remaining quantity is the original quantity; either the incoming order is exhausted or no level is within its limit; an empty incoming order changes nothing and trades nothing; every trade names the incoming order and is at a price within its limit |
| `Crossing.MatchIsPriceTimePriority` | src/orderbook/Container.hxx:196-221 | matching against a priority-ordered queue trades with a prefix of it, oldest first, each trade made only while the incoming order still has quantity left and for the smaller of what is left of the incoming quantity and the resting quantity at the resting price; every order but the last traded is filled completely; the last keeps its place with exactly its fill deducted; the incoming order keeps exactly the unfilled quantity; matching stops only when the incoming order is exhausted, the queue is, or the next order is beyond the limit |
| `Crossing.PriceTimePriorityIsMatch` | src/orderbook/Container.hxx:189-221 | the price-time description determines the outcome: any remaining queue, remaining incoming order and trade list that satisfy it are exactly what matching produces |
| `Crossing.CrossMatchesPriorityOrder` | src/orderbook/Container.hxx:189-226 | `cross` on a valid container makes exactly the trades of price-time matching against its priority order, leaves the same remaining incoming order, and leaves the resting orders that matching leaves, in the same order |

## Left out

- Printing: `operator<<` on the container and on `Order` is stream output with no behaviour to state.
- The `ContainerLike` and `OrderLike` concepts are left out. The comparator type constraint becomes the two-value `Compare`.
- The rvalue overloads of `insert` and `modify` (`Container.hxx:96-108`, `:140-156`) are left out because they behave the same as the const-reference versions modelled here.
- `find` returns the stored `Order` instead of a list iterator. Iterator and pointer identity are not modelled.
- Scalar widths: `Types.hxx` is not part of this model. Identifiers, prices and quantities are unbounded naturals, and no wrap-around is modelled. The subtractions in `cross` take away a `min` and cannot go below zero.
- `OrderType.hxx` is not part of this model. Only `Limit` is named, and it is taken to be the first enumerator, so a value-initialised tag is `Limit`.
- `Trade.hxx` is not part of this model. A trade is modelled as the four values `cross` passes to `emplace_back`: incoming identifier, resting identifier, filled quantity and level price.
- `Orderbook.hxx` is not part of this model, and neither is the two-sided routing that uses it. The benchmark harness and the complexity claims are also left out.
- Container.Remove: requires an indexed identifier. In the source, removing an unknown identifier dereferences `end()`, which is undefined behaviour.
- Container.Find: requires an indexed identifier, for the same reason.
- Container.Modify: requires an indexed identifier, for the same reason.
- Container.BestPrice: requires a non-empty container. In the source, `begin()->first` on an empty map is undefined behaviour.
- Container.Insert: requires an identifier that is not resting. In the source, a duplicate identifier overwrites the index entry while `size` still grows, which breaks the size invariant.
- Crossing.Cross: its own contract states only validity and size. What it computes is stated by `CrossOutcome` and `CrossMatchesPriorityOrder`, which are proved about it.
