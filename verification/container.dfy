/**
  `RBTreeContainer`: one side of an order book. It keeps an ordered map from
  price to a FIFO list of resting orders, a hash index from order identifier
  to that order's place, and a size counter.

  Here the ordered map is the sequence of non-empty levels in best-first order
  under the comparator, and the index records, for each resting identifier,
  the price of the level holding it; the position inside that level is the
  order's place in the level's queue.
 */
module Container {
  import opened Orders
  import opened Policy
  import opened Levels

  datatype Book = Book(cmp: Compare, levels: seq<Level>, index: map<nat, nat>, size: nat)

  /** A level as the container keeps it: non-empty, no identifier twice, every
      order at the level's price and indexed at that price. */
  predicate LevelOk(l: Level, index: map<nat, nat>) {
    && |l.orders| > 0
    && UniqueIds(l.orders)
    && forall k :: 0 <= k < |l.orders| ==>
         && l.orders[k].price == l.price
         && l.orders[k].id in index
         && index[l.orders[k].id] == l.price
  }

  /** The container invariant: levels sorted by the comparator with no
      duplicate price, no empty level, every indexed identifier resting in the
      level at its indexed price, and `size` the number of resting orders. */
  predicate Valid(b: Book) {
    && Sorted(b.cmp, b.levels)
    && (forall i :: 0 <= i < |b.levels| ==> LevelOk(b.levels[i], b.index))
    && (forall id :: id in b.index ==> id in Ids(Queue(b.levels, b.index[id])))
    && b.size == |Flat(b.levels)|
  }

  /** A freshly constructed container. */
  function Empty(cmp: Compare): (b: Book)
    ensures Valid(b) && b.cmp == cmp && b.size == 0
    ensures forall id :: !Contains(b, id)
    ensures forall p :: Queue(b.levels, p) == []
  {
    Book(cmp, [], map[], 0)
  }

  /** `contains`: a lookup in the identifier index. */
  predicate Contains(b: Book, id: nat) {
    id in b.index
  }

  /** The price of the level an indexed order rests in. */
  function PriceOf(b: Book, id: nat): nat
    requires Contains(b, id)
  {
    b.index[id]
  }

  /** The queue at any price satisfies the level conditions (or is empty). */
  lemma QueueIsLevel(b: Book, p: nat)
    requires Valid(b)
    ensures UniqueIds(Queue(b.levels, p))
    ensures forall k :: 0 <= k < |Queue(b.levels, p)| ==>
              var o := Queue(b.levels, p)[k];
              o.price == p && o.id in b.index && b.index[o.id] == p
  {
    var i := FindLevel(b.levels, p);
    if i < |b.levels| {
      assert LevelOk(b.levels[i], b.index);
    }
  }

  /** In a valid container the resting orders, taken in priority order, have
      distinct identifiers, are each indexed at their own price, and their
      prices never get better along the way. */
  lemma {:induction false} FlatOrdered(cmp: Compare, levels: seq<Level>, index: map<nat, nat>)
    requires Sorted(cmp, levels)
    requires forall i :: 0 <= i < |levels| ==> LevelOk(levels[i], index)
    ensures UniqueIds(Flat(levels))
    ensures forall x :: 0 <= x < |Flat(levels)| ==>
              Flat(levels)[x].id in index && index[Flat(levels)[x].id] == Flat(levels)[x].price
    ensures forall x :: 0 <= x < |Flat(levels)| ==>
              Flat(levels)[x].price == levels[0].price || Better(cmp, levels[0].price, Flat(levels)[x].price)
    ensures forall x, y :: 0 <= x < y < |Flat(levels)| ==>
              Flat(levels)[x].price == Flat(levels)[y].price || Better(cmp, Flat(levels)[x].price, Flat(levels)[y].price)
  {
    if |levels| > 0 {
      var head, rest := levels[0].orders, levels[1..];
      var tail := Flat(rest);
      var all := Flat(levels);
      assert all == head + tail;
      assert LevelOk(levels[0], index);
      assert Sorted(cmp, rest);
      FlatOrdered(cmp, rest, index);
      var p0 := levels[0].price;
      assert forall y :: 0 <= y < |tail| ==> Better(cmp, p0, tail[y].price) by {
        forall y | 0 <= y < |tail| ensures Better(cmp, p0, tail[y].price) {
          assert Better(cmp, p0, rest[0].price);
          BetterIsStrictTotal(cmp, p0, rest[0].price, tail[y].price);
        }
      }
      forall x | 0 <= x < |all|
        ensures all[x].id in index && index[all[x].id] == all[x].price
        ensures all[x].price == p0 || Better(cmp, p0, all[x].price)
      {
        if x >= |head| { assert all[x] == tail[x - |head|]; }
      }
      forall x, y | 0 <= x < y < |all|
        ensures all[x].id != all[y].id
        ensures all[x].price == all[y].price || Better(cmp, all[x].price, all[y].price)
      {
        if y < |head| {
        } else if x < |head| {
          assert all[y] == tail[y - |head|];
          BetterIsStrictTotal(cmp, p0, all[y].price, p0);
        } else {
          assert all[x] == tail[x - |head|] && all[y] == tail[y - |head|];
        }
      }
    }
  }

  /** The index holds exactly the identifiers of the resting orders. */
  lemma IndexMatchesLevels(b: Book)
    requires Valid(b)
    ensures b.index.Keys == Ids(Flat(b.levels))
    ensures UniqueIds(Flat(b.levels))
  {
    FlatOrdered(b.cmp, b.levels, b.index);
    forall id | id in b.index ensures id in Ids(Flat(b.levels)) {
      var q := Queue(b.levels, b.index[id]);
      var k :| 0 <= k < |q| && q[k].id == id;
      var i := FindLevel(b.levels, b.index[id]);
      FlatSplit(b.levels, i);
      assert Flat(b.levels)[|Flat(b.levels[..i])| + k] == q[k];
    }
  }

  /** `contains(id)` holds exactly when an order with that identifier rests
      in some level. */
  lemma ContainsMeansResting(b: Book, id: nat)
    requires Valid(b)
    ensures Contains(b, id) <==> id in Ids(Flat(b.levels))
  {
    IndexMatchesLevels(b);
  }

  /** `size`: the counter agrees with the number of resting orders and with
      the number of index entries. */
  function Size(b: Book): (n: nat)
    requires Valid(b)
    ensures n == |Flat(b.levels)|
    ensures n == |b.index|
  {
    IndexMatchesLevels(b);
    UniqueIdsCount(Flat(b.levels));
    b.size
  }

  /** `find`: the resting order with identifier `id`. */
  function Find(b: Book, id: nat): (o: Order)
    requires Valid(b) && Contains(b, id)
    ensures o.id == id && o.price == PriceOf(b, id)
    ensures o in Queue(b.levels, o.price)
  {
    var q := Queue(b.levels, b.index[id]);
    QueueIsLevel(b, b.index[id]);
    q[IndexOf(q, id)]
  }

  /** `bestPrice`: the first key under the comparator, i.e. the lowest price
      for `std::less` and the highest for `std::greater`. */
  function BestPrice(b: Book): (p: nat)
    requires Valid(b) && b.size > 0
    ensures p in Prices(b.levels) && |Queue(b.levels, p)| > 0
    ensures forall x :: x in Prices(b.levels) && x != p ==> Better(b.cmp, p, x)
    ensures b.cmp == Less ==> forall x :: x in Prices(b.levels) ==> p <= x
    ensures b.cmp == Greater ==> forall x :: x in Prices(b.levels) ==> p >= x
  {
    var p := b.levels[0].price;
    QueueAt(b.cmp, b.levels, 0);
    assert LevelOk(b.levels[0], b.index);
    assert p in Prices(b.levels);
    p
  }

  /** A level of a valid container stays well-formed when an identifier it
      does not hold is added to the index. */
  lemma LevelOkAddId(l: Level, index: map<nat, nat>, id: nat, p: nat)
    requires LevelOk(l, index) && id !in index
    ensures LevelOk(l, index[id := p])
  {
  }

  /** `insert` of an order whose identifier is not resting: it joins the back
      of the queue at its price (the level is created if absent), the count
      grows by one, and every other queue is untouched. */
  function Insert(b: Book, o: Order): (r: Book)
    requires Valid(b)
    requires !Contains(b, o.id)
    ensures Valid(r) && r.cmp == b.cmp
    ensures r.size == b.size + 1
    ensures Contains(r, o.id) && PriceOf(r, o.id) == o.price
    ensures forall x :: x != o.id ==> (Contains(r, x) <==> Contains(b, x))
    ensures forall x :: x != o.id && Contains(b, x) ==> PriceOf(r, x) == PriceOf(b, x)
    ensures Queue(r.levels, o.price) == Queue(b.levels, o.price) + [o]
    ensures forall p :: p != o.price ==> Queue(r.levels, p) == Queue(b.levels, p)
    ensures Prices(r.levels) == Prices(b.levels) + {o.price}
  {
    var r := Book(b.cmp, Enqueue(b.cmp, b.levels, o), b.index[o.id := o.price], b.size + 1);
    InsertKeepsValid(b, o, r);
    r
  }

  lemma InsertKeepsValid(b: Book, o: Order, r: Book)
    requires Valid(b) && o.id !in b.index
    requires r == Book(b.cmp, Enqueue(b.cmp, b.levels, o), b.index[o.id := o.price], b.size + 1)
    ensures Valid(r)
  {
    forall j | 0 <= j < |r.levels| ensures LevelOk(r.levels[j], r.index) {
      InsertLevelOk(b, o, r.levels, j);
    }
    InsertCovers(b, o, r.levels, r.index);
  }

  lemma InsertLevelOk(b: Book, o: Order, levels: seq<Level>, j: nat)
    requires Valid(b) && o.id !in b.index
    requires levels == Enqueue(b.cmp, b.levels, o)
    requires j < |levels|
    ensures LevelOk(levels[j], b.index[o.id := o.price])
  {
    if levels[j].price != o.price {
      var k :| 0 <= k < |b.levels| && b.levels[k] == levels[j];
      assert LevelOk(b.levels[k], b.index);
      LevelOkAddId(b.levels[k], b.index, o.id, o.price);
    } else {
      var q := Queue(b.levels, o.price);
      QueueIsLevel(b, o.price);
      assert levels[j].orders == q + [o];
      AppendLevelOk(o.price, q, b.index, o);
    }
  }

  /** A well-formed queue with a fresh order appended at its price is a
      well-formed level for the index extended with that order. */
  lemma AppendLevelOk(p: nat, q: seq<Order>, index: map<nat, nat>, o: Order)
    requires UniqueIds(q) && o.id !in index && o.price == p
    requires forall k :: 0 <= k < |q| ==> q[k].price == p && q[k].id in index && index[q[k].id] == p
    ensures LevelOk(Level(p, q + [o]), index[o.id := p])
  {
    var w := q + [o];
    forall x, y | 0 <= x < y < |w| ensures w[x].id != w[y].id {
      if y == |q| { assert w[x] == q[x]; }
    }
    forall k | 0 <= k < |w| ensures w[k].price == p && w[k].id in index[o.id := p] && index[o.id := p][w[k].id] == p {
      if k < |q| { assert w[k] == q[k]; }
    }
  }

  lemma InsertCovers(b: Book, o: Order, levels: seq<Level>, index: map<nat, nat>)
    requires Valid(b) && o.id !in b.index
    requires levels == Enqueue(b.cmp, b.levels, o) && index == b.index[o.id := o.price]
    ensures forall id :: id in index ==> id in Ids(Queue(levels, index[id]))
  {
    forall id | id in index ensures id in Ids(Queue(levels, index[id])) {
      if id != o.id && b.index[id] == o.price {
        assert id in Ids(Queue(b.levels, o.price));
      }
    }
  }

  /** `remove` of a resting identifier: the order leaves its queue (the
      others keep their relative order), the level is deleted when it
      empties, the count drops by one, and every other queue is untouched. */
  function Remove(b: Book, id: nat): (r: Book)
    requires Valid(b) && Contains(b, id)
    ensures Valid(r) && r.cmp == b.cmp
    ensures r.size == b.size - 1
    ensures !Contains(r, id)
    ensures forall x :: x != id ==> (Contains(r, x) <==> Contains(b, x))
    ensures forall x :: x != id && Contains(b, x) ==> PriceOf(r, x) == PriceOf(b, x)
    ensures Queue(r.levels, PriceOf(b, id)) == Without(Queue(b.levels, PriceOf(b, id)), id)
    ensures forall p :: p != PriceOf(b, id) ==> Queue(r.levels, p) == Queue(b.levels, p)
    ensures Prices(r.levels) ==
              if |Queue(b.levels, PriceOf(b, id))| == 1 then Prices(b.levels) - {PriceOf(b, id)}
              else Prices(b.levels)
  {
    var levels := Dequeue(b.cmp, b.levels, b.index[id], id);
    var r := Book(b.cmp, levels, b.index - {id}, b.size - 1);
    RemoveKeepsValid(b, id, r);
    r
  }

  lemma RemoveKeepsValid(b: Book, id: nat, r: Book)
    requires Valid(b) && id in b.index && b.size > 0
    requires r == Book(b.cmp, Dequeue(b.cmp, b.levels, b.index[id], id), b.index - {id}, b.size - 1)
    ensures Valid(r)
  {
    QueueIsLevel(b, b.index[id]);
    forall j | 0 <= j < |r.levels| ensures LevelOk(r.levels[j], r.index) {
      RemoveLevelOk(b, id, r.levels, j);
    }
    RemoveCovers(b, id, r.levels);
  }

  lemma RemoveLevelOk(b: Book, id: nat, levels: seq<Level>, j: nat)
    requires Valid(b) && id in b.index
    requires levels == Dequeue(b.cmp, b.levels, b.index[id], id)
    requires j < |levels|
    ensures LevelOk(levels[j], b.index - {id})
  {
    var p := b.index[id];
    if levels[j].price != p {
      var k :| 0 <= k < |b.levels| && b.levels[k] == levels[j];
      assert LevelOk(b.levels[k], b.index);
      LevelOkRemoveId(levels[j], b.index, id);
    } else {
      QueueIsLevel(b, p);
      WithoutLevelOk(p, Queue(b.levels, p), b.index, id);
    }
  }

  /** A level stays well-formed when an identifier indexed at another price
      leaves the index. */
  lemma LevelOkRemoveId(l: Level, index: map<nat, nat>, id: nat)
    requires LevelOk(l, index) && id in index && index[id] != l.price
    ensures LevelOk(l, index - {id})
  {
  }

  /** A well-formed queue with one order taken out, when something is left,
      is a well-formed level for the index without that order. */
  lemma WithoutLevelOk(p: nat, q: seq<Order>, index: map<nat, nat>, id: nat)
    requires UniqueIds(q) && id in Ids(q)
    requires forall k :: 0 <= k < |q| ==> q[k].price == p && q[k].id in index && index[q[k].id] == p
    requires |Without(q, id)| > 0
    ensures LevelOk(Level(p, Without(q, id)), index - {id})
  {
    var w := Without(q, id);
    forall k | 0 <= k < |w| ensures w[k].price == p && w[k].id in index - {id} {
      assert w[k].id in Ids(w);
      assert w[k] in q;
    }
  }

  lemma RemoveCovers(b: Book, id: nat, levels: seq<Level>)
    requires Valid(b) && id in b.index
    requires levels == Dequeue(b.cmp, b.levels, b.index[id], id)
    ensures forall x :: x in b.index - {id} ==> x in Ids(Queue(levels, b.index[x]))
  {
    var p := b.index[id];
    var q := Queue(b.levels, p);
    QueueIsLevel(b, p);
    forall x | x in b.index - {id} ensures x in Ids(Queue(levels, b.index[x])) {
      if b.index[x] == p {
        assert x in Ids(q) - {id};
      }
    }
  }

  /** The in-place quantity update made through the index, both by a
      same-price `modify` and by a partial fill during `cross`. */
  function SetRestingQuantity(b: Book, id: nat, qty: nat): (r: Book)
    requires Valid(b) && Contains(b, id)
    ensures Valid(r) && r.cmp == b.cmp
    ensures r.size == b.size && r.index == b.index
    ensures Queue(r.levels, PriceOf(b, id)) == Requantify(Queue(b.levels, PriceOf(b, id)), id, qty)
    ensures forall p :: p != PriceOf(b, id) ==> Queue(r.levels, p) == Queue(b.levels, p)
    ensures Prices(r.levels) == Prices(b.levels)
  {
    var r := Book(b.cmp, Requeue(b.cmp, b.levels, b.index[id], id, qty), b.index, b.size);
    SetRestingQuantityKeepsValid(b, id, qty, r);
    r
  }

  lemma SetRestingQuantityKeepsValid(b: Book, id: nat, qty: nat, r: Book)
    requires Valid(b) && id in b.index
    requires r == Book(b.cmp, Requeue(b.cmp, b.levels, b.index[id], id, qty), b.index, b.size)
    ensures Valid(r)
  {
    var p := b.index[id];
    var q := Queue(b.levels, p);
    var w := Requantify(q, id, qty);
    QueueIsLevel(b, p);
    RequantifyKeepsIds(q, id, qty);
    forall j | 0 <= j < |r.levels| ensures LevelOk(r.levels[j], r.index) {
      if r.levels[j].price != p {
        var k :| 0 <= k < |b.levels| && b.levels[k] == r.levels[j];
        assert LevelOk(b.levels[k], b.index);
      } else {
        assert r.levels[j].orders == w;
      }
    }
    forall x | x in r.index ensures x in Ids(Queue(r.levels, r.index[x])) {
      if b.index[x] == p {
        assert Queue(r.levels, p) == w;
      }
    }
  }

  /** `modify`: a zero quantity removes the order; the same price updates the
      quantity in place, keeping the queue position; a new price moves the
      order, as given, to the back of the queue at that price. */
  function Modify(b: Book, o: Order): (r: Book)
    requires Valid(b) && Contains(b, o.id)
    ensures Valid(r) && r.cmp == b.cmp
    ensures o.quantity == 0 ==> r == Remove(b, o.id)
    ensures Contains(r, o.id) <==> o.quantity > 0
    ensures forall x :: x != o.id ==> (Contains(r, x) <==> Contains(b, x))
    ensures o.quantity > 0 ==> PriceOf(r, o.id) == o.price
    ensures forall x :: x != o.id && Contains(b, x) ==> PriceOf(r, x) == PriceOf(b, x)
    ensures r.size == if o.quantity == 0 then b.size - 1 else b.size
    ensures o.quantity > 0 && o.price == PriceOf(b, o.id) ==>
              && Queue(r.levels, o.price) == Requantify(Queue(b.levels, o.price), o.id, o.quantity)
              && (forall p :: p != o.price ==> Queue(r.levels, p) == Queue(b.levels, p))
    ensures o.quantity > 0 && o.price != PriceOf(b, o.id) ==>
              && Queue(r.levels, o.price) == Queue(b.levels, o.price) + [o]
              && Queue(r.levels, PriceOf(b, o.id)) == Without(Queue(b.levels, PriceOf(b, o.id)), o.id)
              && (forall p :: p != o.price && p != PriceOf(b, o.id) ==> Queue(r.levels, p) == Queue(b.levels, p))
  {
    if o.quantity == 0 then
      Remove(b, o.id)
    else if Find(b, o.id).price == o.price then
      SetRestingQuantity(b, o.id, o.quantity)
    else
      Insert(Remove(b, o.id), o)
  }

  /** Inserting a fresh order and removing it again gives back exactly the
      container one started from. */
  lemma InsertThenRemove(b: Book, o: Order)
    requires Valid(b) && !Contains(b, o.id)
    ensures Remove(Insert(b, o), o.id) == b
  {
    var e := Enqueue(b.cmp, b.levels, o);
    var r1 := Insert(b, o);
    assert r1 == Book(b.cmp, e, b.index[o.id := o.price], b.size + 1);
    assert r1.index[o.id] == o.price;
    var r2 := Remove(r1, o.id);
    assert r2 == Book(b.cmp, Dequeue(b.cmp, e, o.price, o.id), r1.index - {o.id}, b.size);
    LevelsNonEmpty(b);
    QueueIsLevel(b, o.price);
    EnqueueThenDequeue(b.cmp, b.levels, o);
    IndexAddThenRemove(b.index, o.id, o.price);
  }

  lemma IndexAddThenRemove(m: map<nat, nat>, k: nat, v: nat)
    requires k !in m
    ensures m[k := v] - {k} == m
  {
  }

  lemma LevelsNonEmpty(b: Book)
    requires Valid(b)
    ensures forall i :: 0 <= i < |b.levels| ==> |b.levels[i].orders| > 0
  {
    forall i | 0 <= i < |b.levels| ensures |b.levels[i].orders| > 0 {
      assert LevelOk(b.levels[i], b.index);
    }
  }

  lemma EnqueueThenDequeue(cmp: Compare, levels: seq<Level>, o: Order)
    requires Sorted(cmp, levels)
    requires forall i :: 0 <= i < |levels| ==> |levels[i].orders| > 0
    requires o.id !in Ids(Queue(levels, o.price))
    ensures Dequeue(cmp, Enqueue(cmp, levels, o), o.price, o.id) == levels
  {
    var e := Enqueue(cmp, levels, o);
    var i := FindLevel(levels, o.price);
    if i < |levels| {
      assert e == levels[i := Level(o.price, levels[i].orders + [o])];
      DequeueAppended(cmp, levels, i, o);
    } else {
      var s := Slot(cmp, levels, o.price);
      assert e == levels[..s] + [Level(o.price, [o])] + levels[s..];
      DequeueAdded(cmp, levels, s, o);
    }
  }

  lemma DequeueAppended(cmp: Compare, levels: seq<Level>, i: nat, o: Order)
    requires Sorted(cmp, levels)
    requires i < |levels| && levels[i].price == o.price && |levels[i].orders| > 0
    requires o.id !in Ids(levels[i].orders)
    requires o.id in Ids(Queue(levels[i := Level(o.price, levels[i].orders + [o])], o.price))
    ensures Dequeue(cmp, levels[i := Level(o.price, levels[i].orders + [o])], o.price, o.id) == levels
  {
    var q := levels[i].orders;
    var e := levels[i := Level(o.price, q + [o])];
    QueueAt(cmp, levels, i);
    ReplaceLevel(cmp, levels, i, q + [o]);
    QueueAt(cmp, e, i);
    IdsAppend(q, o);
    assert IndexOf(q + [o], o.id) == |q|;
    assert Without(q + [o], o.id) == q;
    assert e[i := Level(o.price, q)] == levels;
  }

  lemma DequeueAdded(cmp: Compare, levels: seq<Level>, s: nat, o: Order)
    requires Sorted(cmp, levels)
    requires s <= |levels|
    requires Sorted(cmp, levels[..s] + [Level(o.price, [o])] + levels[s..])
    requires o.id in Ids(Queue(levels[..s] + [Level(o.price, [o])] + levels[s..], o.price))
    ensures Dequeue(cmp, levels[..s] + [Level(o.price, [o])] + levels[s..], o.price, o.id) == levels
  {
    var l := Level(o.price, [o]);
    var e := levels[..s] + [l] + levels[s..];
    SpliceIndex(levels, s, l);
    assert e[s] == l && [o][0].id == o.id;
    assert Without([o], o.id) == [];
    DequeueDropsLevel(cmp, e, s, o.id);
    assert levels == levels[..s] + levels[s..];
  }
}
