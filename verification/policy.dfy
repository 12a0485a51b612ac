/**
  The ordering policy a price-level container is instantiated with. The
  comparator is either `std::less` (ascending prices: the lowest price is best,
  the ask side) or `std::greater` (descending: the highest price is best, the
  bid side). It decides both which level is best and which levels an incoming
  opposite-side order may trade with.
 */
module Policy {

  datatype Compare = Less | Greater

  /** `cmp_fn_(a, b)`: price `a` is strictly better than price `b`. */
  predicate Better(cmp: Compare, a: nat, b: nat) {
    match cmp
    case Less => a < b
    case Greater => a > b
  }

  /** The crossing guard: a level priced `levelPrice` may trade with an
      incoming order whose limit is `limit` when it is at the limit or better. */
  predicate Marketable(cmp: Compare, levelPrice: nat, limit: nat) {
    levelPrice == limit || Better(cmp, levelPrice, limit)
  }

  /** `Better` is a strict total order on prices. */
  lemma BetterIsStrictTotal(cmp: Compare, a: nat, b: nat, c: nat)
    ensures !Better(cmp, a, a)
    ensures Better(cmp, a, b) ==> !Better(cmp, b, a)
    ensures a != b ==> Better(cmp, a, b) || Better(cmp, b, a)
    ensures Better(cmp, a, b) && Better(cmp, b, c) ==> Better(cmp, a, c)
  {
  }

  /** A price better than a marketable one is marketable too, so the
      marketable levels form a prefix of the best-first level order. */
  lemma MarketableIsUpwardClosed(cmp: Compare, a: nat, b: nat, limit: nat)
    requires Better(cmp, a, b)
    ensures Marketable(cmp, b, limit) ==> Marketable(cmp, a, limit)
  {
  }
}
