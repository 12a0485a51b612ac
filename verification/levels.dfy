/**
  Price levels and the sequences of them a container keeps. A level is a price
  and a FIFO queue of resting orders, oldest first. A container's levels are
  kept best price first, the order in which the red-black tree iterates them.
 */
module Levels {
  import opened Orders
  import opened Policy

  datatype Level = Level(price: nat, orders: seq<Order>)

  /** The identifiers present in a queue. */
  function Ids(q: seq<Order>): set<nat> {
    set k | 0 <= k < |q| :: q[k].id
  }

  /** No identifier occurs twice in a queue. */
  predicate UniqueIds(q: seq<Order>) {
    forall i, j :: 0 <= i < j < |q| ==> q[i].id != q[j].id
  }

  /** A queue with distinct identifiers has as many identifiers as orders. */
  lemma {:induction false} UniqueIdsCount(q: seq<Order>)
    requires UniqueIds(q)
    ensures |Ids(q)| == |q|
  {
    if |q| > 0 {
      var tail := q[1..];
      assert Ids(q) == {q[0].id} + Ids(tail) by {
        forall x | x in Ids(q) ensures x in {q[0].id} + Ids(tail) {
          var k :| 0 <= k < |q| && q[k].id == x;
          if k > 0 { assert tail[k - 1].id == x; }
        }
        forall x | x in Ids(tail) ensures x in Ids(q) {
          var k :| 0 <= k < |tail| && tail[k].id == x;
          assert q[k + 1].id == x;
        }
      }
      assert q[0].id !in Ids(tail) by {
        forall k | 0 <= k < |tail| ensures tail[k].id != q[0].id {
          assert tail[k] == q[k + 1];
        }
      }
      UniqueIdsCount(tail);
    }
  }

  /** Appending an order adds exactly its identifier. */
  lemma IdsAppend(q: seq<Order>, o: Order)
    ensures Ids(q + [o]) == Ids(q) + {o.id}
  {
    var r := q + [o];
    forall x | x in Ids(q) ensures x in Ids(r) {
      var k :| 0 <= k < |q| && q[k].id == x;
      assert r[k].id == x;
    }
    assert r[|q|].id == o.id;
  }

  /** The position of the order identified by `id`: the first one carrying it. */
  function IndexOf(q: seq<Order>, id: nat): (k: nat)
    requires id in Ids(q)
    ensures k < |q| && q[k].id == id
    ensures forall j :: 0 <= j < k ==> q[j].id != id
  {
    if q[0].id == id then 0
    else
      assert id in Ids(q[1..]) by {
        var k :| 0 <= k < |q| && q[k].id == id;
        assert q[1..][k - 1].id == id;
      }
      1 + IndexOf(q[1..], id)
  }

  /** `std::list::erase` at the order identified by `id`: that order leaves the
      queue and every other order keeps its relative position. */
  function Without(q: seq<Order>, id: nat): (r: seq<Order>)
    requires id in Ids(q)
    ensures |r| == |q| - 1
    ensures forall j :: 0 <= j < |r| ==> r[j] == (if j < IndexOf(q, id) then q[j] else q[j + 1])
    ensures UniqueIds(q) ==> UniqueIds(r) && Ids(r) == Ids(q) - {id}
  {
    var k := IndexOf(q, id);
    assert UniqueIds(q) ==> UniqueIds(q[..k] + q[k + 1..]) && Ids(q[..k] + q[k + 1..]) == Ids(q) - {id} by {
      if UniqueIds(q) { DropAtIds(q, k); }
    }
    q[..k] + q[k + 1..]
  }

  /** Dropping the order at position `k` from a queue with distinct
      identifiers removes exactly its identifier. */
  lemma DropAtIds(q: seq<Order>, k: nat)
    requires k < |q| && UniqueIds(q)
    ensures UniqueIds(q[..k] + q[k + 1..])
    ensures Ids(q[..k] + q[k + 1..]) == Ids(q) - {q[k].id}
  {
    var r := q[..k] + q[k + 1..];
    forall i, j | 0 <= i < j < |r| ensures r[i].id != r[j].id {
      var i' := if i < k then i else i + 1;
      var j' := if j < k then j else j + 1;
      assert r[i] == q[i'] && r[j] == q[j'];
    }
    forall x | x in Ids(r) ensures x in Ids(q) - {q[k].id} {
      var j :| 0 <= j < |r| && r[j].id == x;
      if j < k { assert r[j] == q[j]; } else { assert r[j] == q[j + 1]; }
    }
    forall x | x in Ids(q) - {q[k].id} ensures x in Ids(r) {
      var j :| 0 <= j < |q| && q[j].id == x;
      if j < k { assert r[j].id == x; } else { assert r[j - 1].id == x; }
    }
  }

  /** The queue with the quantity of the order identified by `id` replaced by
      `qty`, in place: positions and all other orders are kept. */
  function Requantify(q: seq<Order>, id: nat, qty: nat): (r: seq<Order>)
    ensures |r| == |q|
    ensures forall j :: 0 <= j < |q| && q[j].id != id ==> r[j] == q[j]
    ensures forall j :: 0 <= j < |q| && q[j].id == id ==> r[j] == q[j].SetQuantity(qty)
  {
    seq(|q|, j requires 0 <= j < |q| => if q[j].id == id then q[j].SetQuantity(qty) else q[j])
  }

  /** An in-place quantity update keeps every identifier and price where it was. */
  lemma RequantifyKeepsIds(q: seq<Order>, id: nat, qty: nat)
    ensures forall k :: 0 <= k < |q| ==>
              Requantify(q, id, qty)[k].id == q[k].id && Requantify(q, id, qty)[k].price == q[k].price
    ensures Ids(Requantify(q, id, qty)) == Ids(q)
    ensures UniqueIds(q) ==> UniqueIds(Requantify(q, id, qty))
  {
    var w := Requantify(q, id, qty);
    assert forall k :: 0 <= k < |q| ==> w[k].id == q[k].id && w[k].price == q[k].price;
    forall x | x in Ids(q) ensures x in Ids(w) {
      var k :| 0 <= k < |q| && q[k].id == x;
      assert w[k].id == x;
    }
  }

  /** Levels are in strictly best-first order, so no two share a price. */
  predicate Sorted(cmp: Compare, levels: seq<Level>) {
    forall i, j :: 0 <= i < j < |levels| ==> Better(cmp, levels[i].price, levels[j].price)
  }

  /** The prices that have a level. */
  function Prices(levels: seq<Level>): set<nat> {
    set i | 0 <= i < |levels| :: levels[i].price
  }

  /** All resting orders in priority order: best level first, oldest first
      within a level. */
  function Flat(levels: seq<Level>): seq<Order> {
    if |levels| == 0 then [] else levels[0].orders + Flat(levels[1..])
  }

  lemma {:induction false} FlatConcat(a: seq<Level>, b: seq<Level>)
    ensures Flat(a + b) == Flat(a) + Flat(b)
  {
    if |a| == 0 {
      assert a + b == b;
    } else {
      assert (a + b)[1..] == a[1..] + b;
      FlatConcat(a[1..], b);
    }
  }

  lemma FlatCons(l: Level, rest: seq<Level>)
    ensures Flat([l] + rest) == l.orders + Flat(rest)
  {
    assert ([l] + rest)[1..] == rest;
  }

  /** The orders of level `i` form one contiguous block of the priority order. */
  lemma FlatSplit(levels: seq<Level>, i: nat)
    requires i < |levels|
    ensures Flat(levels) == Flat(levels[..i]) + levels[i].orders + Flat(levels[i + 1..])
  {
    var pre, tail, rest := levels[..i], levels[i..], levels[i + 1..];
    SplitAt(levels, i);
    SplitFront(levels, i);
    FlatConcat(pre, tail);
    FlatCons(levels[i], rest);
    ConcatAssoc(Flat(pre), levels[i].orders, Flat(rest));
  }

  /** Where the level for price `p` sits: the first level carrying `p`, or
      `|levels|` when there is none. */
  function FindLevel(levels: seq<Level>, p: nat): (i: nat)
    ensures i <= |levels|
    ensures i < |levels| ==> levels[i].price == p
    ensures forall j :: 0 <= j < i ==> levels[j].price != p
  {
    if |levels| == 0 then 0
    else if levels[0].price == p then 0
    else 1 + FindLevel(levels[1..], p)
  }

  /** The FIFO queue resting at price `p`; empty when there is no such level. */
  function Queue(levels: seq<Level>, p: nat): seq<Order> {
    var i := FindLevel(levels, p);
    if i < |levels| then levels[i].orders else []
  }

  /** In sorted levels, the queue at a level's price is that level's queue. */
  lemma QueueAt(cmp: Compare, levels: seq<Level>, i: nat)
    requires Sorted(cmp, levels)
    requires i < |levels|
    ensures FindLevel(levels, levels[i].price) == i
    ensures Queue(levels, levels[i].price) == levels[i].orders
  {
    SortedDistinct(cmp, levels);
  }

  /** Sorted levels have pairwise distinct prices. */
  lemma SortedDistinct(cmp: Compare, levels: seq<Level>)
    requires Sorted(cmp, levels)
    ensures forall i, j :: 0 <= i < |levels| && 0 <= j < |levels| && i != j ==> levels[i].price != levels[j].price
  {
    forall i, j | 0 <= i < |levels| && 0 <= j < |levels| && i != j
      ensures levels[i].price != levels[j].price
    {
      if i < j {
        BetterIsStrictTotal(cmp, levels[i].price, levels[j].price, levels[j].price);
      } else {
        BetterIsStrictTotal(cmp, levels[j].price, levels[i].price, levels[i].price);
      }
    }
  }

  /** No level carries price `p`. */
  predicate Absent(levels: seq<Level>, p: nat) {
    forall i :: 0 <= i < |levels| ==> levels[i].price != p
  }

  /** Where a level for a price that has none is inserted: after every better
      level and before every worse one. */
  function Slot(cmp: Compare, levels: seq<Level>, p: nat): (j: nat)
    requires Sorted(cmp, levels)
    requires Absent(levels, p)
    ensures j <= |levels|
    ensures forall i :: 0 <= i < j ==> Better(cmp, levels[i].price, p)
    ensures forall i :: j <= i < |levels| ==> Better(cmp, p, levels[i].price)
  {
    if |levels| == 0 then 0
    else if Better(cmp, p, levels[0].price) then
      assert forall i :: 0 < i < |levels| ==> Better(cmp, p, levels[i].price) by {
        forall i | 0 < i < |levels| ensures Better(cmp, p, levels[i].price) {
          BetterIsStrictTotal(cmp, p, levels[0].price, levels[i].price);
        }
      }
      0
    else
      assert Better(cmp, levels[0].price, p) by {
        BetterIsStrictTotal(cmp, p, levels[0].price, p);
      }
      1 + Slot(cmp, levels[1..], p)
  }

  /** The queue at a price no level carries is empty. */
  lemma QueueAbsent(levels: seq<Level>, p: nat)
    requires Absent(levels, p)
    ensures Queue(levels, p) == []
  {
  }

  /** Appends `o` to the back of the queue at its price, creating the level
      in its sorted place when the price has none (`priceLevels_[price]`
      followed by `push_back`). */
  function Enqueue(cmp: Compare, levels: seq<Level>, o: Order): (r: seq<Level>)
    requires Sorted(cmp, levels)
    ensures Sorted(cmp, r)
    ensures Queue(r, o.price) == Queue(levels, o.price) + [o]
    ensures Ids(Queue(r, o.price)) == Ids(Queue(levels, o.price)) + {o.id}
    ensures forall p :: p != o.price ==> Queue(r, p) == Queue(levels, p)
    ensures Prices(r) == Prices(levels) + {o.price}
    ensures |Flat(r)| == |Flat(levels)| + 1
    ensures forall j :: 0 <= j < |r| && r[j].price != o.price ==> r[j] in levels
    ensures forall j :: 0 <= j < |r| && r[j].price == o.price ==> r[j].orders == Queue(levels, o.price) + [o]
  {
    IdsAppend(Queue(levels, o.price), o);
    var i := FindLevel(levels, o.price);
    if i < |levels| then
      var r := levels[i := Level(o.price, levels[i].orders + [o])];
      ReplaceLevel(cmp, levels, i, levels[i].orders + [o]);
      r
    else
      var s := Slot(cmp, levels, o.price);
      var r := levels[..s] + [Level(o.price, [o])] + levels[s..];
      AddLevel(cmp, levels, s, o);
      r
  }

  /** Replacing the queue of level `i` changes the queue at that price only. */
  lemma ReplaceLevel(cmp: Compare, levels: seq<Level>, i: nat, q: seq<Order>)
    requires Sorted(cmp, levels)
    requires i < |levels|
    ensures var r := levels[i := Level(levels[i].price, q)];
      && Sorted(cmp, r)
      && Queue(r, levels[i].price) == q
      && Queue(levels, levels[i].price) == levels[i].orders
      && (forall p :: p != levels[i].price ==> Queue(r, p) == Queue(levels, p))
      && Prices(r) == Prices(levels)
      && levels[i].price in Prices(levels)
      && |Flat(r)| == |Flat(levels)| - |levels[i].orders| + |q|
      && (forall j :: 0 <= j < |r| && j != i ==> r[j] == levels[j])
      && (forall j :: 0 <= j < |r| && r[j].price == levels[i].price ==> j == i)
  {
    var r := levels[i := Level(levels[i].price, q)];
    assert forall j :: 0 <= j < |r| ==> r[j].price == levels[j].price;
    assert Sorted(cmp, r);
    SortedDistinct(cmp, levels);
    QueueAt(cmp, levels, i);
    QueueAt(cmp, r, i);
    forall p | p != levels[i].price ensures Queue(r, p) == Queue(levels, p) {
      ReplaceLevelQueueOther(cmp, levels, i, q, p);
    }
    ReplaceLevelShape(levels, i, q);
  }

  lemma ReplaceLevelQueueOther(cmp: Compare, levels: seq<Level>, i: nat, q: seq<Order>, p: nat)
    requires Sorted(cmp, levels)
    requires i < |levels| && p != levels[i].price
    requires Sorted(cmp, levels[i := Level(levels[i].price, q)])
    ensures Queue(levels[i := Level(levels[i].price, q)], p) == Queue(levels, p)
  {
    var r := levels[i := Level(levels[i].price, q)];
    if j :| 0 <= j < |levels| && levels[j].price == p {
      QueueAt(cmp, levels, j);
      QueueAt(cmp, r, j);
    } else {
      QueueAbsent(levels, p);
      assert Absent(r, p) by {
        forall j | 0 <= j < |r| ensures r[j].price != p {
          assert r[j].price == levels[j].price;
        }
      }
      QueueAbsent(r, p);
    }
  }

  /** Replacing the queue of level `i` keeps every price and changes the
      number of orders by the difference of the two queues. */
  lemma ReplaceLevelShape(levels: seq<Level>, i: nat, q: seq<Order>)
    requires i < |levels|
    ensures var r := levels[i := Level(levels[i].price, q)];
      && Prices(r) == Prices(levels)
      && levels[i].price in Prices(levels)
      && |Flat(r)| == |Flat(levels)| - |levels[i].orders| + |q|
  {
    var r := levels[i := Level(levels[i].price, q)];
    assert Prices(r) == Prices(levels) by {
      forall x | x in Prices(levels) ensures x in Prices(r) {
        var j :| 0 <= j < |levels| && levels[j].price == x;
        assert r[j].price == x;
      }
      forall x | x in Prices(r) ensures x in Prices(levels) {
        var j :| 0 <= j < |r| && r[j].price == x;
        assert levels[j].price == x;
      }
    }
    assert levels[i].price in Prices(levels);
    FlatSplit(levels, i);
    FlatSplit(r, i);
    UpdateKeepsSlices(levels, i, Level(levels[i].price, q));
  }

  /** Deleting level `i` empties the queue at its price and keeps the rest. */
  lemma DropLevel(cmp: Compare, levels: seq<Level>, i: nat)
    requires Sorted(cmp, levels)
    requires i < |levels|
    ensures var r := levels[..i] + levels[i + 1..];
      && Sorted(cmp, r)
      && Queue(r, levels[i].price) == []
      && Queue(levels, levels[i].price) == levels[i].orders
      && (forall p :: p != levels[i].price ==> Queue(r, p) == Queue(levels, p))
      && Prices(r) == Prices(levels) - {levels[i].price}
      && |Flat(r)| == |Flat(levels)| - |levels[i].orders|
      && (forall j :: 0 <= j < |r| ==> r[j] in levels)
  {
    var r := levels[..i] + levels[i + 1..];
    DropLevelSorted(cmp, levels, i);
    SortedDistinct(cmp, levels);
    QueueAt(cmp, levels, i);
    assert Absent(r, levels[i].price) by {
      forall j | 0 <= j < |r| ensures r[j].price != levels[i].price {
        if j < i { assert r[j] == levels[j]; } else { assert r[j] == levels[j + 1]; }
      }
    }
    QueueAbsent(r, levels[i].price);
    forall p | p != levels[i].price ensures Queue(r, p) == Queue(levels, p) {
      DropLevelQueueOther(cmp, levels, i, p);
    }
    DropLevelShape(levels, i);
  }

  lemma DropLevelSorted(cmp: Compare, levels: seq<Level>, i: nat)
    requires Sorted(cmp, levels)
    requires i < |levels|
    ensures Sorted(cmp, levels[..i] + levels[i + 1..])
  {
    var r := levels[..i] + levels[i + 1..];
    forall a, c | 0 <= a < c < |r| ensures Better(cmp, r[a].price, r[c].price) {
      if c < i {
        assert r[a] == levels[a] && r[c] == levels[c];
      } else if a < i {
        assert r[a] == levels[a] && r[c] == levels[c + 1];
      } else {
        assert r[a] == levels[a + 1] && r[c] == levels[c + 1];
      }
    }
  }

  /** The remaining levels are the old ones but `i`: their prices, their
      orders and their members. */
  lemma DropLevelShape(levels: seq<Level>, i: nat)
    requires i < |levels|
    requires forall j :: 0 <= j < |levels| && j != i ==> levels[j].price != levels[i].price
    ensures var r := levels[..i] + levels[i + 1..];
      && Prices(r) == Prices(levels) - {levels[i].price}
      && |Flat(r)| == |Flat(levels)| - |levels[i].orders|
      && (forall j :: 0 <= j < |r| ==> r[j] in levels)
  {
    var r := levels[..i] + levels[i + 1..];
    forall j | 0 <= j < |r| ensures r[j] in levels && r[j].price in Prices(levels) - {levels[i].price} {
      if j < i { assert r[j] == levels[j]; } else { assert r[j] == levels[j + 1]; }
    }
    forall x | x in Prices(levels) - {levels[i].price} ensures x in Prices(r) {
      var j :| 0 <= j < |levels| && levels[j].price == x;
      if j < i { assert r[j].price == x; } else { assert r[j - 1].price == x; }
    }
    FlatSplit(levels, i);
    FlatConcat(levels[..i], levels[i + 1..]);
  }

  lemma DropLevelQueueOther(cmp: Compare, levels: seq<Level>, i: nat, p: nat)
    requires Sorted(cmp, levels)
    requires i < |levels|
    requires p != levels[i].price
    requires Sorted(cmp, levels[..i] + levels[i + 1..])
    ensures Queue(levels[..i] + levels[i + 1..], p) == Queue(levels, p)
  {
    if j :| 0 <= j < |levels| && levels[j].price == p {
      DropLevelQueueFound(cmp, levels, i, j);
    } else {
      DropLevelQueueAbsent(levels, i, p);
    }
  }

  lemma DropLevelQueueFound(cmp: Compare, levels: seq<Level>, i: nat, j: nat)
    requires Sorted(cmp, levels)
    requires i < |levels| && j < |levels| && j != i
    requires Sorted(cmp, levels[..i] + levels[i + 1..])
    ensures Queue(levels[..i] + levels[i + 1..], levels[j].price) == Queue(levels, levels[j].price)
  {
    var r := levels[..i] + levels[i + 1..];
    QueueAt(cmp, levels, j);
    if j < i {
      assert r[j] == levels[j];
      QueueAt(cmp, r, j);
    } else {
      assert r[j - 1] == levels[j];
      QueueAt(cmp, r, j - 1);
    }
  }

  lemma DropLevelQueueAbsent(levels: seq<Level>, i: nat, p: nat)
    requires i < |levels|
    requires Absent(levels, p)
    ensures Queue(levels[..i] + levels[i + 1..], p) == Queue(levels, p)
  {
    var r := levels[..i] + levels[i + 1..];
    assert Absent(r, p) by {
      forall j | 0 <= j < |r| ensures r[j].price != p {
        if j < i { assert r[j] == levels[j]; } else { assert r[j] == levels[j + 1]; }
      }
    }
    QueueAbsent(levels, p);
    QueueAbsent(r, p);
  }

  /** Element access into a sequence with one level spliced in at `s`. */
  lemma SpliceIndex(levels: seq<Level>, s: nat, l: Level)
    requires s <= |levels|
    ensures var r := levels[..s] + [l] + levels[s..];
      && |r| == |levels| + 1
      && (forall j :: 0 <= j < s ==> r[j] == levels[j])
      && r[s] == l
      && (forall j :: s < j < |r| ==> r[j] == levels[j - 1])
      && r[..s] == levels[..s]
      && r[s + 1..] == levels[s..]
  {
  }

  lemma AddLevelSorted(cmp: Compare, levels: seq<Level>, s: nat, l: Level)
    requires Sorted(cmp, levels)
    requires s <= |levels|
    requires forall i :: 0 <= i < s ==> Better(cmp, levels[i].price, l.price)
    requires forall i :: s <= i < |levels| ==> Better(cmp, l.price, levels[i].price)
    ensures Sorted(cmp, levels[..s] + [l] + levels[s..])
  {
    var r := levels[..s] + [l] + levels[s..];
    SpliceIndex(levels, s, l);
    forall a, c | 0 <= a < c < |r| ensures Better(cmp, r[a].price, r[c].price) {
      if a < s && c == s {
      } else if a == s {
        assert r[c] == levels[c - 1];
      } else if c < s {
      } else if a < s {
        assert r[c] == levels[c - 1];
        BetterIsStrictTotal(cmp, r[a].price, l.price, r[c].price);
      } else {
        assert r[a] == levels[a - 1] && r[c] == levels[c - 1];
      }
    }
  }

  lemma AddLevel(cmp: Compare, levels: seq<Level>, s: nat, o: Order)
    requires Sorted(cmp, levels)
    requires Absent(levels, o.price)
    requires s <= |levels|
    requires forall i :: 0 <= i < s ==> Better(cmp, levels[i].price, o.price)
    requires forall i :: s <= i < |levels| ==> Better(cmp, o.price, levels[i].price)
    ensures var r := levels[..s] + [Level(o.price, [o])] + levels[s..];
      && Sorted(cmp, r)
      && Queue(r, o.price) == Queue(levels, o.price) + [o]
      && (forall p :: p != o.price ==> Queue(r, p) == Queue(levels, p))
      && Prices(r) == Prices(levels) + {o.price}
      && |Flat(r)| == |Flat(levels)| + 1
      && (forall j :: 0 <= j < |r| && r[j].price != o.price ==> r[j] in levels)
      && (forall j :: 0 <= j < |r| && r[j].price == o.price ==> r[j].orders == Queue(levels, o.price) + [o])
  {
    var l := Level(o.price, [o]);
    var r := levels[..s] + [l] + levels[s..];
    SpliceIndex(levels, s, l);
    AddLevelSorted(cmp, levels, s, l);
    AddLevelQueues(cmp, levels, s, o);
    AddLevelPrices(levels, s, l);
    AddLevelShape(levels, s, l);
    SortedDistinct(cmp, r);
  }

  /** The spliced sequence holds one more level, and every other level is an
      old one. */
  lemma AddLevelShape(levels: seq<Level>, s: nat, l: Level)
    requires s <= |levels|
    ensures var r := levels[..s] + [l] + levels[s..];
      && |Flat(r)| == |Flat(levels)| + |l.orders|
      && (forall j :: 0 <= j < |r| && j != s ==> r[j] in levels)
  {
    var r := levels[..s] + [l] + levels[s..];
    SpliceIndex(levels, s, l);
    FlatSplit(r, s);
    assert levels == levels[..s] + levels[s..];
    FlatConcat(levels[..s], levels[s..]);
    forall j | 0 <= j < |r| && j != s ensures r[j] in levels {
      if j < s { assert r[j] == levels[j]; } else { assert r[j] == levels[j - 1]; }
    }
  }

  lemma AddLevelQueues(cmp: Compare, levels: seq<Level>, s: nat, o: Order)
    requires Sorted(cmp, levels)
    requires Absent(levels, o.price)
    requires s <= |levels|
    requires Sorted(cmp, levels[..s] + [Level(o.price, [o])] + levels[s..])
    ensures var r := levels[..s] + [Level(o.price, [o])] + levels[s..];
      && Queue(r, o.price) == Queue(levels, o.price) + [o]
      && (forall p :: p != o.price ==> Queue(r, p) == Queue(levels, p))
  {
    var l := Level(o.price, [o]);
    var r := levels[..s] + [l] + levels[s..];
    SpliceIndex(levels, s, l);
    QueueAt(cmp, r, s);
    QueueAbsent(levels, o.price);
    forall p | p != o.price ensures Queue(r, p) == Queue(levels, p) {
      AddLevelQueueOther(cmp, levels, s, l, p);
    }
  }

  lemma AddLevelQueueOther(cmp: Compare, levels: seq<Level>, s: nat, l: Level, p: nat)
    requires Sorted(cmp, levels)
    requires s <= |levels|
    requires Sorted(cmp, levels[..s] + [l] + levels[s..])
    requires p != l.price
    ensures Queue(levels[..s] + [l] + levels[s..], p) == Queue(levels, p)
  {
    if j :| 0 <= j < |levels| && levels[j].price == p {
      AddLevelQueueFound(cmp, levels, s, l, j);
    } else {
      AddLevelQueueAbsent(levels, s, l, p);
    }
  }

  lemma AddLevelQueueFound(cmp: Compare, levels: seq<Level>, s: nat, l: Level, j: nat)
    requires Sorted(cmp, levels)
    requires s <= |levels| && j < |levels|
    requires Sorted(cmp, levels[..s] + [l] + levels[s..])
    ensures Queue(levels[..s] + [l] + levels[s..], levels[j].price) == Queue(levels, levels[j].price)
  {
    var r := levels[..s] + [l] + levels[s..];
    QueueAt(cmp, levels, j);
    if j < s {
      assert r[j] == levels[j];
      QueueAt(cmp, r, j);
    } else {
      assert r[j + 1] == levels[j];
      QueueAt(cmp, r, j + 1);
    }
  }

  lemma AddLevelQueueAbsent(levels: seq<Level>, s: nat, l: Level, p: nat)
    requires s <= |levels|
    requires Absent(levels, p) && p != l.price
    ensures Queue(levels[..s] + [l] + levels[s..], p) == Queue(levels, p)
  {
    var r := levels[..s] + [l] + levels[s..];
    SpliceIndex(levels, s, l);
    assert Absent(r, p) by {
      forall j | 0 <= j < |r| ensures r[j].price != p {
        if j > s { assert r[j] == levels[j - 1]; }
      }
    }
    QueueAbsent(levels, p);
    QueueAbsent(r, p);
  }

  lemma AddLevelPrices(levels: seq<Level>, s: nat, l: Level)
    requires s <= |levels|
    ensures Prices(levels[..s] + [l] + levels[s..]) == Prices(levels) + {l.price}
  {
    var r := levels[..s] + [l] + levels[s..];
    SpliceIndex(levels, s, l);
    forall x | x in Prices(levels) ensures x in Prices(r) {
      var j :| 0 <= j < |levels| && levels[j].price == x;
      if j < s { assert r[j].price == x; } else { assert r[j + 1].price == x; }
    }
    forall x | x in Prices(r) ensures x in Prices(levels) + {l.price} {
      var j :| 0 <= j < |r| && r[j].price == x;
      if j < s { assert levels[j].price == x; }
      else if j > s { assert levels[j - 1].price == x; }
    }
    assert r[s].price == l.price;
  }

  /** A non-empty queue is the queue of an existing level. */
  lemma QueueFound(levels: seq<Level>, p: nat)
    requires |Queue(levels, p)| > 0
    ensures FindLevel(levels, p) < |levels|
    ensures Queue(levels, p) == levels[FindLevel(levels, p)].orders
  {
  }

  lemma IdsNonEmpty(q: seq<Order>, id: nat)
    requires id in Ids(q)
    ensures |q| > 0
  {
  }

  /** Erases the order identified by `id` from the queue at price `p`, and
      deletes the level when that leaves it empty. */
  function Dequeue(cmp: Compare, levels: seq<Level>, p: nat, id: nat): (r: seq<Level>)
    requires Sorted(cmp, levels)
    requires id in Ids(Queue(levels, p))
    ensures Sorted(cmp, r)
    ensures Queue(r, p) == Without(Queue(levels, p), id)
    ensures forall p' :: p' != p ==> Queue(r, p') == Queue(levels, p')
    ensures Prices(r) == if |Queue(levels, p)| == 1 then Prices(levels) - {p} else Prices(levels)
    ensures |Flat(r)| == |Flat(levels)| - 1
    ensures forall j :: 0 <= j < |r| && r[j].price != p ==> r[j] in levels
    ensures forall j :: 0 <= j < |r| && r[j].price == p ==>
              r[j].orders == Without(Queue(levels, p), id) && |r[j].orders| > 0
  {
    IdsNonEmpty(Queue(levels, p), id);
    QueueFound(levels, p);
    var i := FindLevel(levels, p);
    var rest := Without(levels[i].orders, id);
    if |rest| == 0 then
      DropLevel(cmp, levels, i);
      levels[..i] + levels[i + 1..]
    else
      ReplaceLevel(cmp, levels, i, rest);
      levels[i := Level(p, rest)]
  }

  /** Erasing the only order of level `i` deletes that level. */
  lemma DequeueDropsLevel(cmp: Compare, levels: seq<Level>, i: nat, id: nat)
    requires Sorted(cmp, levels)
    requires i < |levels| && id in Ids(levels[i].orders)
    requires |Without(levels[i].orders, id)| == 0
    ensures id in Ids(Queue(levels, levels[i].price))
    ensures Dequeue(cmp, levels, levels[i].price, id) == levels[..i] + levels[i + 1..]
  {
    QueueAt(cmp, levels, i);
  }

  /** Sets, in place, the quantity of the order identified by `id` in the
      queue at price `p`. */
  function Requeue(cmp: Compare, levels: seq<Level>, p: nat, id: nat, qty: nat): (r: seq<Level>)
    requires Sorted(cmp, levels)
    requires id in Ids(Queue(levels, p))
    ensures Sorted(cmp, r)
    ensures Queue(r, p) == Requantify(Queue(levels, p), id, qty)
    ensures forall p' :: p' != p ==> Queue(r, p') == Queue(levels, p')
    ensures Prices(r) == Prices(levels)
    ensures |Flat(r)| == |Flat(levels)|
    ensures forall j :: 0 <= j < |r| && r[j].price != p ==> r[j] in levels
    ensures forall j :: 0 <= j < |r| && r[j].price == p ==> r[j].orders == Requantify(Queue(levels, p), id, qty)
  {
    IdsNonEmpty(Queue(levels, p), id);
    QueueFound(levels, p);
    var i := FindLevel(levels, p);
    ReplaceLevel(cmp, levels, i, Requantify(levels[i].orders, id, qty));
    levels[i := Level(p, Requantify(levels[i].orders, id, qty))]
  }

  /** Erasing the front order of the best level drops exactly the first
      order of the priority order. */
  lemma DequeueFront(cmp: Compare, levels: seq<Level>)
    requires Sorted(cmp, levels)
    requires |levels| > 0 && |levels[0].orders| > 0
    requires levels[0].orders[0].id in Ids(Queue(levels, levels[0].price))
    ensures Flat(Dequeue(cmp, levels, levels[0].price, levels[0].orders[0].id)) == Flat(levels)[1..]
  {
    var q := levels[0].orders;
    var p := levels[0].price;
    assert FindLevel(levels, p) == 0;
    assert q[0].id in Ids(q);
    assert IndexOf(q, q[0].id) == 0;
    var w := Without(q, q[0].id);
    assert w == q[1..];
    var r := Dequeue(cmp, levels, p, q[0].id);
    var tail := Flat(levels[1..]);
    assert Flat(levels) == q + tail;
    DropFirstOfConcat(q, tail);
    if |q| == 1 {
      assert r == levels[..0] + levels[1..];
      EmptyPrefix(levels[..0], levels[1..]);
      assert q[1..] == [];
      EmptyPrefix(q[1..], tail);
    } else {
      assert r == levels[0 := Level(p, w)];
      UpdateFirst(levels, Level(p, w));
      FlatCons(Level(p, w), levels[1..]);
    }
  }

  /** Setting the quantity of the front order of the best level changes the
      first order of the priority order and nothing else. */
  lemma RequeueFront(cmp: Compare, levels: seq<Level>, qty: nat)
    requires Sorted(cmp, levels)
    requires |levels| > 0 && |levels[0].orders| > 0 && UniqueIds(levels[0].orders)
    requires levels[0].orders[0].id in Ids(Queue(levels, levels[0].price))
    ensures Flat(Requeue(cmp, levels, levels[0].price, levels[0].orders[0].id, qty))
            == [levels[0].orders[0].SetQuantity(qty)] + Flat(levels)[1..]
  {
    var q := levels[0].orders;
    var p := levels[0].price;
    assert FindLevel(levels, p) == 0;
    var w := Requantify(q, q[0].id, qty);
    assert w == [q[0].SetQuantity(qty)] + q[1..];
    var r := Requeue(cmp, levels, p, q[0].id, qty);
    assert r == levels[0 := Level(p, w)];
    UpdateFirst(levels, Level(p, w));
    FlatCons(Level(p, w), levels[1..]);
    var tail := Flat(levels[1..]);
    assert Flat(levels) == q + tail;
    DropFirstOfConcat(q, tail);
    ConsConcat(q[0].SetQuantity(qty), q[1..], tail);
  }

  lemma EmptyPrefix<T>(a: seq<T>, b: seq<T>)
    requires |a| == 0
    ensures a + b == b
  {
  }

  lemma UpdateFirst<T>(s: seq<T>, x: T)
    requires |s| > 0
    ensures s[0 := x] == [x] + s[1..]
  {
  }

  lemma DropFirstOfConcat<T>(a: seq<T>, b: seq<T>)
    requires |a| > 0
    ensures (a + b)[1..] == a[1..] + b
  {
  }

  lemma ConcatAssoc<T>(a: seq<T>, b: seq<T>, c: seq<T>)
    ensures a + (b + c) == (a + b) + c
  {
  }

  lemma SplitAt<T>(s: seq<T>, i: nat)
    requires i <= |s|
    ensures s == s[..i] + s[i..]
  {
  }

  lemma SplitFront<T>(s: seq<T>, i: nat)
    requires i < |s|
    ensures s[i..] == [s[i]] + s[i + 1..]
  {
  }

  lemma UpdateKeepsSlices<T>(s: seq<T>, i: nat, x: T)
    requires i < |s|
    ensures s[i := x][..i] == s[..i] && s[i := x][i + 1..] == s[i + 1..]
  {
  }

  lemma ConsConcat<T>(x: T, a: seq<T>, b: seq<T>)
    ensures ([x] + a) + b == [x] + (a + b)
  {
  }
}
