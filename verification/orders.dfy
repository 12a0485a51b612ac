/**
  The order value type of the matching engine: the attributes a resting or
  incoming order carries, its three constructors and its single mutator.
  The scalar types `id_t`, `price_t`, `quantity_t` and `exch_id_t` are modelled
  as unbounded naturals.
 */
module Orders {

  /** The order-type tag. Only `Limit` is named by the core. `Limit` is taken
      to be the first enumerator, so a value-initialised tag is `Limit`; every
      other enumerator is `Other(k)`, with `k` its position among the
      enumerators after `Limit` (`Other(0)` is the second enumerator). */
  datatype OrderType = Limit | Other(rankAfterLimit: nat)

  /** An order: identifier, limit price, remaining quantity, side, venue
      identifier and type tag. Only the quantity ever changes. */
  datatype Order = Order(
    id: nat,
    price: nat,
    quantity: nat,
    isBuy: bool,
    exchangeId: nat,
    orderType: OrderType)
  {
    /** `setQuantity`: replaces the remaining quantity and nothing else. */
    function SetQuantity(q: nat): (o: Order)
      ensures o.quantity == q
      ensures o.id == id && o.price == price && o.isBuy == isBuy
      ensures o.exchangeId == exchangeId && o.orderType == orderType
    {
      this.(quantity := q)
    }
  }

  /** The default constructor: every scalar zero, a sell order, the
      value-initialised type tag. */
  function DefaultOrder(): (o: Order)
    ensures o.id == 0 && o.price == 0 && o.quantity == 0
    ensures !o.isBuy && o.exchangeId == 0 && o.orderType == Limit
  {
    Order(0, 0, 0, false, 0, Limit)
  }

  /** The six-argument constructor: each accessor returns its argument. */
  function NewOrder(id: nat, price: nat, quantity: nat, isBuy: bool, exchangeId: nat,
                    orderType: OrderType): (o: Order)
    ensures o.id == id && o.price == price && o.quantity == quantity
    ensures o.isBuy == isBuy && o.exchangeId == exchangeId && o.orderType == orderType
  {
    Order(id, price, quantity, isBuy, exchangeId, orderType)
  }

  /** The five-argument constructor: a limit order. */
  function NewLimitOrder(id: nat, price: nat, quantity: nat, isBuy: bool, exchangeId: nat): (o: Order)
    ensures o.orderType == Limit
    ensures o == NewOrder(id, price, quantity, isBuy, exchangeId, Limit)
  {
    Order(id, price, quantity, isBuy, exchangeId, Limit)
  }

  /** Setting the quantity twice keeps only the second value, and setting an
      order's own quantity gives the order back: `setQuantity` is a pure
      overwrite of one attribute. */
  lemma SetQuantityOverwrites(o: Order, a: nat, b: nat)
    ensures o.SetQuantity(a).SetQuantity(b) == o.SetQuantity(b)
    ensures o.SetQuantity(o.quantity) == o
    ensures o.SetQuantity(a).SetQuantity(o.quantity) == o
  {
  }
}
