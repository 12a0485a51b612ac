/**
  `cross`: the FIFO crossing of an incoming opposite-side order against one
  container, under price-time priority. While the incoming order has quantity
  left and the best level is at its limit or better, the front order of that
  level is filled for the smaller of the two remaining quantities; a resting
  order filled completely is removed (its level too, when that empties it),
  otherwise its quantity is reduced in place and it keeps its place.

  `Cross` always acts on the live level: it re-reads the best level of the
  container after every fill.
 */
module Crossing {
  import opened Orders
  import opened Policy
  import opened Levels
  import opened Container

  /** A trade record: aggressor identifier, resting identifier, filled
      quantity and execution price (the resting level's price). */
  datatype Trade = Trade(aggressorId: nat, restingId: nat, quantity: nat, price: nat)

  /** What a crossing leaves: the container after the fills, the incoming
      order with its remaining quantity, and the trades in execution order. */
  datatype Crossed = Crossed(book: Book, incoming: Order, trades: seq<Trade>)

  function Min(a: int, b: int): int {
    if a <= b then a else b
  }

  /** Total filled quantity of a sequence of trades. */
  function Volume(trades: seq<Trade>): nat {
    if |trades| == 0 then 0 else trades[0].quantity + Volume(trades[1..])
  }

  lemma VolumeCons(t: Trade, trades: seq<Trade>)
    ensures Volume([t] + trades) == t.quantity + Volume(trades)
  {
    assert ([t] + trades)[1..] == trades;
  }

  /** No level of the container may trade with a limit of `limit`. */
  predicate NothingMarketable(b: Book, limit: nat) {
    forall i :: 0 <= i < |b.levels| ==> !Marketable(b.cmp, b.levels[i].price, limit)
  }

  /** When the best level is not marketable, no level is. */
  lemma BestNotMarketable(b: Book, limit: nat)
    requires Valid(b) && |b.levels| > 0
    requires !Marketable(b.cmp, b.levels[0].price, limit)
    ensures NothingMarketable(b, limit)
  {
    forall i | 0 < i < |b.levels| ensures !Marketable(b.cmp, b.levels[i].price, limit) {
      MarketableIsUpwardClosed(b.cmp, b.levels[0].price, b.levels[i].price, limit);
    }
  }

  /** What one fill against the front of a priority-ordered queue leaves:
      the queue, the incoming order with its remaining quantity, and the
      trade made. */
  datatype QueueFill = QueueFill(rest: seq<Order>, incoming: Order, trade: Trade)

  /** One fill stated on the priority order itself: the front order trades
      with `incoming` at its own price for the smaller of the two quantities;
      filled completely it leaves the queue, otherwise it stays at the front
      with its fill deducted. The filled and the remaining quantity add up to
      the incoming quantity, and either the incoming order is exhausted or the
      front order is gone. */
  function FillQueueFront(queue: seq<Order>, incoming: Order): (s: QueueFill)
    requires |queue| > 0
    ensures s.trade == Trade(incoming.id, queue[0].id, Min(incoming.quantity, queue[0].quantity), queue[0].price)
    ensures s.trade.quantity + s.incoming.quantity == incoming.quantity
    ensures s.incoming == incoming.SetQuantity(s.incoming.quantity)
    ensures queue[0].quantity <= incoming.quantity ==> s.rest == queue[1..]
    ensures incoming.quantity < queue[0].quantity ==>
              s.rest == [queue[0].SetQuantity(queue[0].quantity - incoming.quantity)] + queue[1..]
    ensures s.incoming.quantity == 0 || s.rest == queue[1..]
    ensures |queue| - 1 <= |s.rest| <= |queue|
    ensures incoming.quantity > 0 ==> |s.rest| + s.incoming.quantity < |queue| + incoming.quantity
  {
    var resting := queue[0];
    var filled := Min(incoming.quantity, resting.quantity);
    QueueFill(
      if resting.quantity <= filled then queue[1..]
      else [resting.SetQuantity(resting.quantity - filled)] + queue[1..],
      incoming.SetQuantity(incoming.quantity - filled),
      Trade(incoming.id, resting.id, filled, resting.price))
  }

  /** A front order no larger than the incoming quantity leaves the queue. */
  lemma FillQueueFrontRemoves(queue: seq<Order>, incoming: Order)
    requires |queue| > 0 && queue[0].quantity <= incoming.quantity
    ensures FillQueueFront(queue, incoming)
            == QueueFill(queue[1..], incoming.SetQuantity(incoming.quantity - queue[0].quantity),
                         Trade(incoming.id, queue[0].id, queue[0].quantity, queue[0].price))
  {
  }

  /** A front order larger than the incoming quantity stays at the front with
      the incoming quantity deducted, and the incoming order is exhausted. */
  lemma FillQueueFrontReduces(queue: seq<Order>, incoming: Order, front: Order)
    requires |queue| > 0 && queue[0] == front && incoming.quantity < front.quantity
    ensures FillQueueFront(queue, incoming)
            == QueueFill([front.SetQuantity(front.quantity - incoming.quantity)] + queue[1..],
                         incoming.SetQuantity(0),
                         Trade(incoming.id, front.id, incoming.quantity, front.price))
  {
  }

  /** What one fill against a container leaves: the container, the incoming
      order with its remaining quantity, and the trade made. */
  datatype Fill = Fill(book: Book, incoming: Order, trade: Trade)

  /** `f` is what one fill of `incoming` against the front of `b` leaves: a
      well-formed container with the same ordering policy, whose priority
      order, trade and remaining incoming order are those `FillQueueFront`
      gives on `b`'s priority order; the trade is at the best level's price,
      no order is added, and orders plus incoming quantity strictly shrink. */
  predicate FillsFront(b: Book, incoming: Order, f: Fill) {
    && |b.levels| > 0 && |b.levels[0].orders| > 0
    && |Flat(b.levels)| > 0 && Flat(b.levels)[0] == b.levels[0].orders[0]
    && Valid(f.book) && f.book.cmp == b.cmp
    && (var s := FillQueueFront(Flat(b.levels), incoming);
        f.trade == s.trade && f.incoming == s.incoming && Flat(f.book.levels) == s.rest)
    && f.trade.price == b.levels[0].price
    && f.book.size <= b.size
    && f.book.size + f.incoming.quantity < b.size + incoming.quantity
  }

  /** One iteration of the crossing loop: the front order of the best level
      trades with `incoming` at the level's price for the smaller of the two
      quantities; filled completely it is removed (and its level with it when
      that empties the level), otherwise its quantity is reduced in place. */
  function FillFront(b: Book, incoming: Order): (f: Fill)
    requires Valid(b) && |b.levels| > 0 && incoming.quantity > 0
    ensures FillsFront(b, incoming, f)
  {
    assert LevelOk(b.levels[0], b.index);
    if b.levels[0].orders[0].quantity <= incoming.quantity then FillRemoving(b, incoming)
    else FillReducing(b, incoming)
  }

  /** A fill that exhausts the front order removes it from the container,
      which drops it from the priority order as `FillQueueFront` does. */
  function FillRemoving(b: Book, incoming: Order): (f: Fill)
    requires Valid(b) && |b.levels| > 0 && incoming.quantity > 0
    requires |b.levels[0].orders| > 0 && b.levels[0].orders[0].quantity <= incoming.quantity
    ensures FillsFront(b, incoming, f)
  {
    FrontOfPriorityOrder(b);
    var s := FillQueueFront(Flat(b.levels), incoming);
    FillQueueFrontRemoves(Flat(b.levels), incoming);
    RemoveFront(b, s.rest);
    Fill(Remove(b, b.levels[0].orders[0].id), s.incoming, s.trade)
  }

  /** A fill that leaves part of the front order reduces it in place, which
      changes the priority order as `FillQueueFront` does. */
  function FillReducing(b: Book, incoming: Order): (f: Fill)
    requires Valid(b) && |b.levels| > 0 && incoming.quantity > 0
    requires |b.levels[0].orders| > 0 && incoming.quantity < b.levels[0].orders[0].quantity
    ensures FillsFront(b, incoming, f)
  {
    FrontOfPriorityOrder(b);
    var resting := b.levels[0].orders[0];
    var s := FillQueueFront(Flat(b.levels), incoming);
    FillQueueFrontReduces(Flat(b.levels), incoming, resting);
    RequantifyFront(b, resting.quantity - incoming.quantity, s.rest);
    Fill(SetRestingQuantity(b, resting.id, resting.quantity - incoming.quantity), s.incoming, s.trade)
  }

  /** Removing the front order of the best level drops exactly the first
      order of the priority order. */
  lemma RemoveFront(b: Book, expected: seq<Order>)
    requires Valid(b) && |b.levels| > 0 && |b.levels[0].orders| > 0 && |Flat(b.levels)| > 0
    requires expected == Flat(b.levels)[1..]
    ensures Contains(b, b.levels[0].orders[0].id)
    ensures Flat(Remove(b, b.levels[0].orders[0].id).levels) == expected
  {
    FrontOfPriorityOrder(b);
    var id := b.levels[0].orders[0].id;
    QueueAt(b.cmp, b.levels, 0);
    assert id in Ids(Queue(b.levels, b.levels[0].price));
    DequeueFront(b.cmp, b.levels);
  }

  /** Reducing the front order of the best level in place changes the first
      order of the priority order and nothing else. */
  lemma RequantifyFront(b: Book, qty: nat, expected: seq<Order>)
    requires Valid(b) && |b.levels| > 0 && |b.levels[0].orders| > 0 && |Flat(b.levels)| > 0
    requires expected == [b.levels[0].orders[0].SetQuantity(qty)] + Flat(b.levels)[1..]
    ensures Contains(b, b.levels[0].orders[0].id)
    ensures Flat(SetRestingQuantity(b, b.levels[0].orders[0].id, qty).levels) == expected
  {
    FrontOfPriorityOrder(b);
    var id := b.levels[0].orders[0].id;
    QueueAt(b.cmp, b.levels, 0);
    assert id in Ids(Queue(b.levels, b.levels[0].price));
    RequeueFront(b.cmp, b.levels, qty);
  }

  /** The first order in priority order is the front of the best level,
      which is at the best level's price. */
  lemma FrontOfPriorityOrder(b: Book)
    requires Valid(b) && |b.levels| > 0
    ensures |b.levels[0].orders| > 0 && b.levels[0].orders[0].price == b.levels[0].price
    ensures Flat(b.levels) == b.levels[0].orders + Flat(b.levels[1..])
    ensures |Flat(b.levels)| > 0 && Flat(b.levels)[0] == b.levels[0].orders[0]
  {
    assert LevelOk(b.levels[0], b.index);
  }

  /** `cross`: fills `incoming` against the container, best level first and
      oldest order first within a level, while it has quantity left and the
      best level is at its limit or better. The container stays well-formed;
      `CrossOutcome` and `CrossMatchesPriorityOrder` state what it does. */
  function Cross(b: Book, incoming: Order): (r: Crossed)
    requires Valid(b)
    ensures Valid(r.book) && r.book.cmp == b.cmp
    ensures r.book.size <= b.size
    decreases b.size + incoming.quantity
  {
    if incoming.quantity == 0 || |b.levels| == 0 || !Marketable(b.cmp, b.levels[0].price, incoming.price) then
      Crossed(b, incoming, [])
    else
      var f := FillFront(b, incoming);
      var r := Cross(f.book, f.incoming);
      Crossed(r.book, r.incoming, [f.trade] + r.trades)
  }

  /** One step of `Cross` that fills the front order. */
  lemma CrossStep(b: Book, incoming: Order)
    requires Valid(b) && |b.levels| > 0 && incoming.quantity > 0
    requires Marketable(b.cmp, b.levels[0].price, incoming.price)
    ensures var f := FillFront(b, incoming);
            var r := Cross(f.book, f.incoming);
            Cross(b, incoming) == Crossed(r.book, r.incoming, [f.trade] + r.trades)
  {
  }

  /** What `cross` leaves: the incoming order changed in its quantity only,
      the filled volume and the remaining quantity adding up to the original
      quantity, either nothing left to fill or no level left within the limit,
      nothing done for an empty order, and every trade made by the incoming
      order at a price within its limit. */
  lemma {:induction false} CrossOutcome(b: Book, incoming: Order)
    requires Valid(b)
    ensures var r := Cross(b, incoming);
            && r.incoming == incoming.SetQuantity(r.incoming.quantity)
            && Volume(r.trades) + r.incoming.quantity == incoming.quantity
            && (r.incoming.quantity == 0 || NothingMarketable(r.book, incoming.price))
            && (incoming.quantity == 0 ==> r.book == b && r.trades == [])
            && (forall k :: 0 <= k < |r.trades| ==>
                  r.trades[k].aggressorId == incoming.id && Marketable(b.cmp, r.trades[k].price, incoming.price))
    decreases b.size + incoming.quantity
  {
    if incoming.quantity == 0 || |b.levels| == 0 || !Marketable(b.cmp, b.levels[0].price, incoming.price) {
      assert Cross(b, incoming) == Crossed(b, incoming, []);
      if incoming.quantity > 0 && |b.levels| > 0 {
        BestNotMarketable(b, incoming.price);
      }
    } else {
      var f := FillFront(b, incoming);
      var r := Cross(f.book, f.incoming);
      CrossStep(b, incoming);
      CrossOutcome(f.book, f.incoming);
      VolumeCons(f.trade, r.trades);
      CrossOutcomeStep(b.cmp, incoming, f.incoming, f.trade, r);
    }
  }

  /** Prefixing one trade of `incoming` within its limit to what the rest of
      the crossing did keeps the per-trade facts of `CrossOutcome`. */
  lemma CrossOutcomeStep(cmp: Compare, incoming: Order, rest: Order, t: Trade, r: Crossed)
    requires rest.id == incoming.id && rest.price == incoming.price
    requires t.aggressorId == incoming.id && Marketable(cmp, t.price, incoming.price)
    requires forall k :: 0 <= k < |r.trades| ==>
               r.trades[k].aggressorId == rest.id && Marketable(cmp, r.trades[k].price, rest.price)
    ensures forall k :: 0 <= k < |[t] + r.trades| ==>
              ([t] + r.trades)[k].aggressorId == incoming.id && Marketable(cmp, ([t] + r.trades)[k].price, incoming.price)
  {
    var all := [t] + r.trades;
    forall k | 0 <= k < |all|
      ensures all[k].aggressorId == incoming.id && Marketable(cmp, all[k].price, incoming.price)
    {
      if k > 0 { assert all[k] == r.trades[k - 1]; }
    }
  }

  /** What matching against one priority-ordered queue leaves behind. */
  datatype Matched = Matched(rest: seq<Order>, incoming: Order, trades: seq<Trade>)

  /** Trade `k` of `trades` is the one price-time priority makes against
      `queue[k]`: the incoming order still has quantity left after the earlier
      trades, and trades with that resting order at its price, for the smaller
      of what is left of the incoming quantity and the resting quantity. */
  predicate TradeAt(cmp: Compare, queue: seq<Order>, incoming: Order, trades: seq<Trade>, k: nat)
    requires k < |trades| && k < |queue|
  {
    && Volume(trades[..k]) < incoming.quantity
    && Marketable(cmp, queue[k].price, incoming.price)
    && trades[k].aggressorId == incoming.id
    && trades[k].restingId == queue[k].id
    && trades[k].price == queue[k].price
    && trades[k].quantity == Min(incoming.quantity - Volume(trades[..k]), queue[k].quantity)
  }

  /** `trades` are the trades against a prefix of `queue`, one per resting
      order, each as `TradeAt` describes. */
  predicate Describes(cmp: Compare, queue: seq<Order>, incoming: Order, trades: seq<Trade>) {
    && |trades| <= |queue|
    && forall k: nat :: k < |trades| ==> TradeAt(cmp, queue, incoming, trades, k)
  }

  /** Every resting order traded with, except possibly the last, was filled
      completely. */
  predicate FilledBeforeLast(queue: seq<Order>, trades: seq<Trade>)
    requires |trades| <= |queue|
  {
    forall k :: 0 <= k < |trades| - 1 ==> trades[k].quantity == queue[k].quantity
  }

  /** The resting orders left once `trades` have been made against the front
      of `queue`: the untouched suffix, preceded by the last order traded with
      (reduced by its fill) when that fill did not exhaust it. */
  function Leftover(queue: seq<Order>, trades: seq<Trade>): (rest: seq<Order>)
    requires |trades| <= |queue|
    ensures |queue| - |trades| <= |rest| <= |queue| - |trades| + 1
    ensures rest[|rest| - (|queue| - |trades|)..] == queue[|trades|..]
  {
    var n := |trades|;
    (if n > 0 && trades[n - 1].quantity < queue[n - 1].quantity
     then [queue[n - 1].SetQuantity(queue[n - 1].quantity - trades[n - 1].quantity)]
     else []) + queue[n..]
  }

  /** Price-time priority stated on a single queue of resting orders that is
      already in priority order: fill against the front of the queue, as
      `FillQueueFront` does, while the incoming order has quantity left and
      the front order is within its limit. `MatchIsPriceTimePriority` states
      what this produces. */
  function Match(cmp: Compare, queue: seq<Order>, incoming: Order): (m: Matched)
    decreases |queue| + incoming.quantity
  {
    if incoming.quantity == 0 || |queue| == 0 || !Marketable(cmp, queue[0].price, incoming.price) then
      Matched(queue, incoming, [])
    else
      var s := FillQueueFront(queue, incoming);
      var m := Match(cmp, s.rest, s.incoming);
      Matched(m.rest, m.incoming, [s.trade] + m.trades)
  }

  /** One step of `Match`. */
  lemma MatchStep(cmp: Compare, queue: seq<Order>, incoming: Order)
    requires |queue| > 0 && incoming.quantity > 0 && Marketable(cmp, queue[0].price, incoming.price)
    ensures var s := FillQueueFront(queue, incoming);
            var m := Match(cmp, s.rest, s.incoming);
            Match(cmp, queue, incoming) == Matched(m.rest, m.incoming, [s.trade] + m.trades)
  {
  }

  /** `m` is what price-time priority leaves after matching `incoming`
      against `queue`: the incoming order trades with a prefix of the queue as
      `Describes` states, every order before the last one is filled completely,
      the last one is left at the front with exactly its fill deducted when it
      is not, the incoming order keeps exactly what was not filled, and
      matching stops only when the incoming order is exhausted, the queue is,
      or the next order is beyond the limit. */
  predicate PriceTimePriority(cmp: Compare, queue: seq<Order>, incoming: Order, m: Matched) {
    && Describes(cmp, queue, incoming, m.trades)
    && FilledBeforeLast(queue, m.trades)
    && Volume(m.trades) <= incoming.quantity
    && m.incoming == incoming.SetQuantity(incoming.quantity - Volume(m.trades))
    && m.rest == Leftover(queue, m.trades)
    && (m.incoming.quantity == 0 || |m.trades| == |queue|
        || !Marketable(cmp, queue[|m.trades|].price, incoming.price))
  }

  /** `Match` is price-time priority. */
  lemma {:induction false} MatchIsPriceTimePriority(cmp: Compare, queue: seq<Order>, incoming: Order)
    ensures PriceTimePriority(cmp, queue, incoming, Match(cmp, queue, incoming))
    decreases |queue|
  {
    if incoming.quantity == 0 || |queue| == 0 || !Marketable(cmp, queue[0].price, incoming.price) {
      assert Match(cmp, queue, incoming) == Matched(queue, incoming, []);
      MatchNothing(cmp, queue, incoming);
    } else if queue[0].quantity <= incoming.quantity {
      var rest := incoming.SetQuantity(incoming.quantity - queue[0].quantity);
      MatchFullStep(cmp, queue, incoming);
      MatchIsPriceTimePriority(cmp, queue[1..], rest);
      MatchFullFill(cmp, queue, incoming, Match(cmp, queue[1..], rest));
    } else {
      MatchPartialStep(cmp, queue, incoming);
      MatchPartialFill(cmp, queue, incoming);
    }
  }

  /** `Match` when the front order is filled completely. */
  lemma MatchFullStep(cmp: Compare, queue: seq<Order>, incoming: Order)
    requires |queue| > 0 && incoming.quantity > 0 && Marketable(cmp, queue[0].price, incoming.price)
    requires queue[0].quantity <= incoming.quantity
    ensures var m := Match(cmp, queue[1..], incoming.SetQuantity(incoming.quantity - queue[0].quantity));
            Match(cmp, queue, incoming)
            == Matched(m.rest, m.incoming, [Trade(incoming.id, queue[0].id, queue[0].quantity, queue[0].price)] + m.trades)
  {
    MatchStep(cmp, queue, incoming);
    FillQueueFrontRemoves(queue, incoming);
  }

  /** `Match` when the front order is filled partially: it stops there. */
  lemma MatchPartialStep(cmp: Compare, queue: seq<Order>, incoming: Order)
    requires |queue| > 0 && incoming.quantity > 0 && Marketable(cmp, queue[0].price, incoming.price)
    requires incoming.quantity < queue[0].quantity
    ensures Match(cmp, queue, incoming)
            == Matched([queue[0].SetQuantity(queue[0].quantity - incoming.quantity)] + queue[1..],
                       incoming.SetQuantity(0),
                       [Trade(incoming.id, queue[0].id, incoming.quantity, queue[0].price)])
  {
    var s := FillQueueFront(queue, incoming);
    FillQueueFrontReduces(queue, incoming, queue[0]);
    MatchStep(cmp, queue, incoming);
    MatchExhausted(cmp, s.rest, s.incoming);
    AppendEmpty([s.trade]);
  }

  /** An exhausted incoming order matches nothing. */
  lemma MatchExhausted(cmp: Compare, queue: seq<Order>, incoming: Order)
    requires incoming.quantity == 0
    ensures Match(cmp, queue, incoming) == Matched(queue, incoming, [])
  {
  }

  lemma AppendEmpty<T>(s: seq<T>)
    ensures s + [] == s
  {
  }

  /** Matching that makes no trade leaves the queue and the incoming order
      as they are. */
  lemma MatchNothing(cmp: Compare, queue: seq<Order>, incoming: Order)
    requires incoming.quantity == 0 || |queue| == 0 || !Marketable(cmp, queue[0].price, incoming.price)
    ensures PriceTimePriority(cmp, queue, incoming, Matched(queue, incoming, []))
  {
    assert Leftover(queue, []) == queue;
  }

  /** The step of `Match` that fills the front order completely and goes on
      with the rest of the queue. */
  lemma MatchFullFill(cmp: Compare, queue: seq<Order>, incoming: Order, m: Matched)
    requires incoming.quantity > 0
    requires |queue| > 0 && Marketable(cmp, queue[0].price, incoming.price)
    requires queue[0].quantity <= incoming.quantity
    requires PriceTimePriority(cmp, queue[1..], incoming.SetQuantity(incoming.quantity - queue[0].quantity), m)
    ensures PriceTimePriority(cmp, queue, incoming,
              Matched(m.rest, m.incoming, [Trade(incoming.id, queue[0].id, queue[0].quantity, queue[0].price)] + m.trades))
  {
    var trade := Trade(incoming.id, queue[0].id, queue[0].quantity, queue[0].price);
    var trades := [trade] + m.trades;
    VolumeCons(trade, m.trades);
    DescribesCons(cmp, queue, incoming, trade, m.trades);
    FilledCons(queue, trade, m.trades);
    LeftoverCons(queue, trade, m.trades);
    if |trades| < |queue| {
      assert queue[|trades|] == queue[1..][|m.trades|];
    }
  }

  lemma DescribesCons(cmp: Compare, queue: seq<Order>, incoming: Order, trade: Trade, trades: seq<Trade>)
    requires incoming.quantity > 0
    requires |queue| > 0 && Marketable(cmp, queue[0].price, incoming.price)
    requires trade == Trade(incoming.id, queue[0].id, queue[0].quantity, queue[0].price)
    requires queue[0].quantity <= incoming.quantity
    requires Describes(cmp, queue[1..], incoming.SetQuantity(incoming.quantity - queue[0].quantity), trades)
    ensures Describes(cmp, queue, incoming, [trade] + trades)
  {
    var rest := incoming.SetQuantity(incoming.quantity - queue[0].quantity);
    var all := [trade] + trades;
    assert all[..0] == [];
    assert TradeAt(cmp, queue, incoming, all, 0);
    forall k: nat | 1 <= k < |all|
      ensures TradeAt(cmp, queue, incoming, all, k)
    {
      assert TradeAt(cmp, queue[1..], rest, trades, k - 1);
      assert all[..k] == [trade] + trades[..k - 1];
      VolumeCons(trade, trades[..k - 1]);
      assert queue[1..][k - 1] == queue[k];
      assert all[k] == trades[k - 1];
    }
  }

  lemma FilledCons(queue: seq<Order>, trade: Trade, trades: seq<Trade>)
    requires |queue| > 0 && |trades| <= |queue| - 1
    requires trade.quantity == queue[0].quantity
    requires FilledBeforeLast(queue[1..], trades)
    ensures FilledBeforeLast(queue, [trade] + trades)
  {
    var all := [trade] + trades;
    forall k | 0 <= k < |all| - 1 ensures all[k].quantity == queue[k].quantity {
      if k > 0 {
        assert all[k] == trades[k - 1] && queue[k] == queue[1..][k - 1];
      }
    }
  }

  lemma LeftoverCons(queue: seq<Order>, trade: Trade, trades: seq<Trade>)
    requires |queue| > 0 && |trades| <= |queue| - 1
    requires trade.quantity == queue[0].quantity
    ensures Leftover(queue, [trade] + trades) == Leftover(queue[1..], trades)
  {
    var all := [trade] + trades;
    var n := |trades|;
    assert queue[n + 1..] == queue[1..][n..];
    if n > 0 {
      assert all[n] == trades[n - 1] && queue[n] == queue[1..][n - 1];
    }
  }

  /** The step of `Match` that fills the front order partially and stops. */
  lemma MatchPartialFill(cmp: Compare, queue: seq<Order>, incoming: Order)
    requires |queue| > 0 && Marketable(cmp, queue[0].price, incoming.price)
    requires 0 < incoming.quantity < queue[0].quantity
    ensures PriceTimePriority(cmp, queue, incoming,
              Matched([queue[0].SetQuantity(queue[0].quantity - incoming.quantity)] + queue[1..],
                      incoming.SetQuantity(0),
                      [Trade(incoming.id, queue[0].id, incoming.quantity, queue[0].price)]))
  {
    var trade := Trade(incoming.id, queue[0].id, incoming.quantity, queue[0].price);
    assert [trade][..0] == [];
    assert TradeAt(cmp, queue, incoming, [trade], 0);
    VolumeCons(trade, []);
  }

  /** Price-time priority admits exactly one outcome: any result it accepts
      is the one `Match` gives. */
  lemma PriceTimePriorityIsMatch(cmp: Compare, queue: seq<Order>, incoming: Order, m: Matched)
    requires PriceTimePriority(cmp, queue, incoming, m)
    ensures m == Match(cmp, queue, incoming)
  {
    MatchIsPriceTimePriority(cmp, queue, incoming);
    PriceTimePriorityUnique(cmp, queue, incoming, m, Match(cmp, queue, incoming));
  }

  /** Two outcomes that both satisfy price-time priority are the same. */
  lemma PriceTimePriorityUnique(cmp: Compare, queue: seq<Order>, incoming: Order, m1: Matched, m2: Matched)
    requires PriceTimePriority(cmp, queue, incoming, m1)
    requires PriceTimePriority(cmp, queue, incoming, m2)
    ensures m1 == m2
  {
    var t1, t2 := m1.trades, m2.trades;
    NextTradeAllowed(cmp, queue, incoming, t1, t2);
    NextTradeAllowed(cmp, queue, incoming, t2, t1);
    assert |t1| == |t2|;
    SamePrefix(cmp, queue, incoming, t1, t2, |t1|);
    assert t1 == t1[..|t1|] && t2 == t2[..|t2|];
  }

  /** When one sequence of price-time trades is shorter than another, the
      shorter one has not stopped: the incoming order has quantity left and
      the next resting order exists and is within the limit. */
  lemma NextTradeAllowed(cmp: Compare, queue: seq<Order>, incoming: Order, s: seq<Trade>, t: seq<Trade>)
    requires Describes(cmp, queue, incoming, s) && Describes(cmp, queue, incoming, t)
    ensures |s| < |t| ==>
              && Volume(s) < incoming.quantity && |s| < |queue|
              && Marketable(cmp, queue[|s|].price, incoming.price)
  {
    if |s| < |t| {
      SamePrefix(cmp, queue, incoming, s, t, |s|);
      assert s[..|s|] == s;
      assert TradeAt(cmp, queue, incoming, t, |s|);
    }
  }

  /** Each price-time trade is determined by the trades before it, so two
      sequences of them agree on their common length. */
  lemma {:induction false} SamePrefix(cmp: Compare, queue: seq<Order>, incoming: Order, s: seq<Trade>, t: seq<Trade>, n: nat)
    requires Describes(cmp, queue, incoming, s) && Describes(cmp, queue, incoming, t)
    requires n <= |s| && n <= |t|
    ensures s[..n] == t[..n]
  {
    if n > 0 {
      SamePrefix(cmp, queue, incoming, s, t, n - 1);
      assert TradeAt(cmp, queue, incoming, s, n - 1) && TradeAt(cmp, queue, incoming, t, n - 1);
      assert s[n - 1] == t[n - 1];
      assert s[..n] == s[..n - 1] + [s[n - 1]];
      assert t[..n] == t[..n - 1] + [t[n - 1]];
    }
  }

  /** The crossing result `r` and the matching result `m` agree: the same
      trades, the same remaining incoming order, and the resting orders left
      in the container, in priority order, are the unmatched rest. */
  predicate Agrees(r: Crossed, m: Matched) {
    r.trades == m.trades && r.incoming == m.incoming && Flat(r.book.levels) == m.rest
  }

  lemma AgreesCons(r: Crossed, m: Matched, t: Trade)
    requires Agrees(r, m)
    ensures Agrees(Crossed(r.book, r.incoming, [t] + r.trades), Matched(m.rest, m.incoming, [t] + m.trades))
  {
  }

  /** `cross` on the container does exactly what matching against its
      priority order does. */
  lemma {:induction false} CrossMatchesPriorityOrder(b: Book, incoming: Order)
    requires Valid(b)
    ensures Agrees(Cross(b, incoming), Match(b.cmp, Flat(b.levels), incoming))
    decreases b.size + incoming.quantity
  {
    var queue := Flat(b.levels);
    if incoming.quantity == 0 || |b.levels| == 0 || !Marketable(b.cmp, b.levels[0].price, incoming.price) {
      if |b.levels| > 0 {
        FrontOfPriorityOrder(b);
      }
      assert Cross(b, incoming) == Crossed(b, incoming, []);
      assert Match(b.cmp, queue, incoming) == Matched(queue, incoming, []);
    } else {
      var f := FillFront(b, incoming);
      FrontOfPriorityOrder(b);
      CrossStep(b, incoming);
      MatchStep(b.cmp, queue, incoming);
      CrossMatchesPriorityOrder(f.book, f.incoming);
      AgreesCons(Cross(f.book, f.incoming), Match(b.cmp, Flat(f.book.levels), f.incoming), f.trade);
    }
  }
}
