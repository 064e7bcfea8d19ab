/**
  A side of the book as the sorted price map of src/book.rs sees it: price to FIFO queue.
  Flattening best price first turns it into one side of BookSpec.Book, and each map
  operation into the corresponding sequence operation.
 */
module Levels {
  import opened Orders
  import opened BookSpec

  type Queues = map<i64, seq<Order>>

  // ----- Best key of a sorted map

  lemma {:induction false} BestExists(side: Side, keys: set<i64>) returns (p: i64)
    requires keys != {}
    ensures p in keys && forall q :: q in keys ==> q == p || Better(side, p, q)
    decreases |keys|
  {
    var x :| x in keys;
    if keys == {x} {
      p := x;
    } else {
      assert keys - {x} != {};
      var r := BestExists(side, keys - {x});
      p := if Better(side, x, r) then x else r;
      forall q | q in keys ensures q == p || Better(side, p, q) {
        if q != x { assert q in keys - {x}; }
      }
    }
  }

  /** The last key for bids (highest), the first for asks (lowest). */
  function BestKey(side: Side, keys: set<i64>): (p: i64)
    requires keys != {}
    ensures p in keys
    ensures forall q :: q in keys ==> q == p || Better(side, p, q)
  {
    assert exists p :: p in keys && forall q :: q in keys ==> q == p || Better(side, p, q) by {
      var p := BestExists(side, keys);
    }
    var p :| p in keys && forall q :: q in keys ==> q == p || Better(side, p, q);
    p
  }

  function BestPrice(side: Side, keys: set<i64>): Option<i64> {
    if keys == {} then None else Some(BestKey(side, keys))
  }

  // ----- Flattening

  ghost function FlattenOver(side: Side, m: Queues, keys: set<i64>): seq<Order>
    requires keys <= m.Keys
    decreases |keys|
  {
    if keys == {} then [] else
    var p := BestKey(side, keys);
    m[p] + FlattenOver(side, m, keys - {p})
  }

  ghost function Flatten(side: Side, m: Queues): seq<Order> { FlattenOver(side, m, m.Keys) }

  /** No empty level; every order sits at its own side and price. */
  ghost predicate WfQueues(side: Side, m: Queues) {
    forall p :: p in m ==> m[p] != [] && forall i :: 0 <= i < |m[p]| ==> m[p][i].side == side && m[p][i].price == p
  }

  ghost predicate DistinctQueues(m: Queues) {
    forall p, i, q, j :: p in m && 0 <= i < |m[p]| && q in m && 0 <= j < |m[q]| && m[p][i].id == m[q][j].id
                         ==> p == q && i == j
  }

  ghost predicate QueuesHold(m: Queues, id: u64) {
    exists p, i :: p in m && 0 <= i < |m[p]| && m[p][i].id == id
  }

  ghost predicate ApartIds(a: Queues, b: Queues) {
    forall p, i, q, j :: p in a && 0 <= i < |a[p]| && q in b && 0 <= j < |b[q]| ==> a[p][i].id != b[q][j].id
  }

  // ----- The map operations

  function AppendTo(m: Queues, o: Order): Queues {
    m[o.price := (if o.price in m then m[o.price] else []) + [o]]
  }

  function WithQueue(m: Queues, p: i64, q: seq<Order>): Queues {
    if q == [] then m - {p} else m[p := q]
  }

  function TakeFrom(q: seq<Order>, fill: u64): seq<Order>
    requires q != [] && fill <= q[0].quantity
  {
    if q[0].quantity == fill then q[1..] else [q[0].(quantity := q[0].quantity - fill)] + q[1..]
  }

  // ----- Facts about flattening

  lemma {:induction false} FlattenAgrees(side: Side, m: Queues, m': Queues, keys: set<i64>)
    requires keys <= m.Keys && keys <= m'.Keys
    requires forall p :: p in keys ==> m[p] == m'[p]
    ensures FlattenOver(side, m, keys) == FlattenOver(side, m', keys)
    decreases |keys|
  {
    if keys != {} {
      FlattenAgrees(side, m, m', keys - {BestKey(side, keys)});
    }
  }

  lemma {:induction false} FlattenMembers(side: Side, m: Queues, keys: set<i64>)
    requires keys <= m.Keys
    ensures forall x :: x in FlattenOver(side, m, keys) <==> exists p :: p in keys && x in m[p]
    decreases |keys|
  {
    if keys != {} {
      var b := BestKey(side, keys);
      FlattenMembers(side, m, keys - {b});
      assert keys == {b} + (keys - {b});
    }
  }

  lemma FlattenHead(side: Side, m: Queues, keys: set<i64>)
    requires WfQueues(side, m) && keys <= m.Keys
    ensures FlattenOver(side, m, keys) == [] <==> keys == {}
    ensures keys != {} ==> FlattenOver(side, m, keys)[0] == m[BestKey(side, keys)][0]
  {
  }

  lemma FlattenUnfold(side: Side, m: Queues, keys: set<i64>, p: i64)
    requires keys <= m.Keys && p in keys && forall q :: q in keys ==> q == p || Better(side, p, q)
    ensures BestKey(side, keys) == p
    ensures FlattenOver(side, m, keys) == m[p] + FlattenOver(side, m, keys - {p})
  {
  }

  lemma FlattenNext(side: Side, m: Queues, keys: set<i64>, done: seq<Order>)
    requires keys != {} && keys <= m.Keys
    ensures var p := BestKey(side, keys);
      done + FlattenOver(side, m, keys) == done + m[p] + FlattenOver(side, m, keys - {p})
  {
  }

  // ----- Insertion

  lemma {:induction false} InsertPast(a: seq<Order>, b: seq<Order>, o: Order)
    requires forall i :: 0 <= i < |a| ==> !Better(o.side, o.price, a[i].price)
    ensures InsertSorted(a + b, o) == a + InsertSorted(b, o)
  {
    if a == [] {
      assert a + b == b && a + InsertSorted(b, o) == InsertSorted(b, o);
    } else {
      assert (a + b)[1..] == a[1..] + b;
      InsertPast(a[1..], b, o);
    }
  }

  lemma InsertBetween(a: seq<Order>, b: seq<Order>, o: Order)
    requires forall i :: 0 <= i < |a| ==> !Better(o.side, o.price, a[i].price)
    requires b != [] ==> Better(o.side, o.price, b[0].price)
    ensures InsertSorted(a + b, o) == a + [o] + b
  {
    InsertPast(a, b, o);
    assert a + [o] + b == a + ([o] + b);
  }

  /** The new price becomes the best one. */
  lemma FlattenAppendFront(m: Queues, o: Order, keys: set<i64>)
    requires WfQueues(o.side, m) && keys <= m.Keys && o.price !in keys && o.price !in m
    requires keys != {} ==> Better(o.side, o.price, BestKey(o.side, keys))
    ensures FlattenOver(o.side, AppendTo(m, o), keys + {o.price}) == InsertSorted(FlattenOver(o.side, m, keys), o)
  {
    var side, p, m' := o.side, o.price, AppendTo(m, o);
    FlattenHead(side, m, keys);
    assert keys + {p} - {p} == keys;
    FlattenUnfold(side, m', keys + {p}, p);
    FlattenAgrees(side, m, m', keys);
  }

  /** The order joins the best queue, behind it and before every other level. */
  lemma FlattenAppendBest(m: Queues, o: Order, keys: set<i64>)
    requires WfQueues(o.side, m) && keys <= m.Keys && o.price in keys
    requires BestKey(o.side, keys) == o.price
    ensures FlattenOver(o.side, AppendTo(m, o), keys) == InsertSorted(FlattenOver(o.side, m, keys), o)
  {
    var side, p, m' := o.side, o.price, AppendTo(m, o);
    var tail := FlattenOver(side, m, keys - {p});
    FlattenUnfold(side, m, keys, p);
    FlattenUnfold(side, m', keys, p);
    FlattenAgrees(side, m, m', keys - {p});
    FlattenHead(side, m, keys - {p});
    InsertBetween(m[p], tail, o);
  }

  /** The order goes behind the best queue: the rest of the side decides where. */
  lemma FlattenAppendBehind(m: Queues, o: Order, keys: set<i64>)
    requires WfQueues(o.side, m) && keys != {} && keys <= m.Keys && Better(o.side, BestKey(o.side, keys), o.price)
    requires var rest := keys - {BestKey(o.side, keys)};
      FlattenOver(o.side, AppendTo(m, o), rest + {o.price}) == InsertSorted(FlattenOver(o.side, m, rest), o)
    ensures FlattenOver(o.side, AppendTo(m, o), keys + {o.price}) == InsertSorted(FlattenOver(o.side, m, keys), o)
  {
    var b := BestKey(o.side, keys);
    var tail := FlattenOver(o.side, m, keys - {b});
    assert keys + {o.price} - {b} == keys - {b} + {o.price};
    FlattenUnfold(o.side, AppendTo(m, o), keys + {o.price}, b);
    InsertPast(m[b], tail, o);
  }

  /** Appending to the queue at its price is stable insertion into the flattened side. */
  lemma {:induction false} FlattenAppend(m: Queues, o: Order, keys: set<i64>)
    requires WfQueues(o.side, m) && keys <= m.Keys && (o.price in m ==> o.price in keys)
    ensures FlattenOver(o.side, AppendTo(m, o), keys + {o.price}) == InsertSorted(FlattenOver(o.side, m, keys), o)
    decreases |keys|
  {
    if keys == {} || Better(o.side, o.price, BestKey(o.side, keys)) {
      FlattenAppendFront(m, o, keys);
    } else if o.price == BestKey(o.side, keys) {
      assert keys + {o.price} == keys;
      FlattenAppendBest(m, o, keys);
    } else {
      FlattenAppend(m, o, keys - {BestKey(o.side, keys)});
      FlattenAppendBehind(m, o, keys);
    }
  }

  lemma AppendFlattens(m: Queues, o: Order)
    requires WfQueues(o.side, m)
    ensures Flatten(o.side, AppendTo(m, o)) == InsertSorted(Flatten(o.side, m), o)
    ensures WfQueues(o.side, AppendTo(m, o))
  {
    FlattenAppend(m, o, m.Keys);
    assert AppendTo(m, o).Keys == m.Keys + {o.price};
  }

  // ----- Replacing one queue

  /** Changing the best queue changes exactly the front of the flattened side. */
  lemma FlattenBest(side: Side, m: Queues, q: seq<Order>)
    requires m.Keys != {} && WfQueues(side, m)
    requires forall i :: 0 <= i < |q| ==> q[i].side == side && q[i].price == BestKey(side, m.Keys)
    ensures var p := BestKey(side, m.Keys);
      var rest := FlattenOver(side, m, m.Keys - {p});
      && Flatten(side, m) == m[p] + rest
      && Flatten(side, WithQueue(m, p, q)) == q + rest
      && WfQueues(side, WithQueue(m, p, q))
  {
    var p := BestKey(side, m.Keys);
    var m' := WithQueue(m, p, q);
    FlattenAgrees(side, m, m', m.Keys - {p});
    if q == [] {
      assert m'.Keys == m.Keys - {p};
    } else {
      assert m'.Keys == m.Keys;
    }
  }

  /** Reducing the front of the best queue reduces the front of the flattened side. */
  lemma TakeFlattens(side: Side, m: Queues, fill: u64)
    requires m.Keys != {} && WfQueues(side, m)
    requires fill <= m[BestKey(side, m.Keys)][0].quantity
    ensures var p := BestKey(side, m.Keys);
      var m' := WithQueue(m, p, TakeFrom(m[p], fill));
      && WfQueues(side, m')
      && Flatten(side, m) != [] && Flatten(side, m)[0] == m[p][0]
      && Flatten(side, m') == TakeFrom(Flatten(side, m), fill)
  {
    var p := BestKey(side, m.Keys);
    FlattenBest(side, m, TakeFrom(m[p], fill));
    var rest := FlattenOver(side, m, m.Keys - {p});
    assert (m[p] + rest)[1..] == m[p][1..] + rest;
  }

  // ----- Deletion

  /** m' with keys' is m with keys, except that the queue at p became q (and went away if empty). */
  ghost predicate Requeued(m: Queues, keys: set<i64>, m': Queues, keys': set<i64>, p: i64, q: seq<Order>) {
    && p in keys && keys <= m.Keys && keys' <= m'.Keys
    && keys' == (if q == [] then keys - {p} else keys)
    && (q != [] ==> m'[p] == q)
    && forall x :: x in keys && x != p ==> m'[x] == m[x]
  }

  lemma {:induction false} FlattenRemoveOver(
    side: Side, m: Queues, keys: set<i64>, m': Queues, keys': set<i64>, p: i64, i: nat) returns (k: nat)
    requires p in m && i < |m[p]| && Requeued(m, keys, m', keys', p, RemoveAt(m[p], i))
    ensures k < |FlattenOver(side, m, keys)| && FlattenOver(side, m, keys)[k] == m[p][i]
    ensures FlattenOver(side, m', keys') == RemoveAt(FlattenOver(side, m, keys), k)
    decreases |keys|
  {
    var b := BestKey(side, keys);
    FlattenUnfold(side, m, keys, b);
    if b == p {
      k := i;
      FlattenRemoveBest(side, m, keys, m', keys', p, i);
      RemoveBefore(m[p], FlattenOver(side, m, keys - {b}), i);
    } else {
      RequeuedBehind(m, keys, m', keys', p, RemoveAt(m[p], i), b);
      var j := FlattenRemoveOver(side, m, keys - {b}, m', keys' - {b}, p, i);
      k := j + |m[b]|;
      FlattenUnfold(side, m', keys', b);
      RemovePast(m[b], FlattenOver(side, m, keys - {b}), j);
    }
  }

  lemma RequeuedBehind(m: Queues, keys: set<i64>, m': Queues, keys': set<i64>, p: i64, q: seq<Order>, b: i64)
    requires Requeued(m, keys, m', keys', p, q) && b in keys && b != p
    ensures Requeued(m, keys - {b}, m', keys' - {b}, p, q)
    ensures b in keys' && m'[b] == m[b] && keys' <= keys
  {
  }

  lemma RemoveBefore(a: seq<Order>, b: seq<Order>, i: nat)
    requires i < |a|
    ensures RemoveAt(a + b, i) == RemoveAt(a, i) + b
  {
  }

  lemma FlattenRemoveBest(side: Side, m: Queues, keys: set<i64>, m': Queues, keys': set<i64>, p: i64, i: nat)
    requires p in m && i < |m[p]| && Requeued(m, keys, m', keys', p, RemoveAt(m[p], i)) && BestKey(side, keys) == p
    ensures FlattenOver(side, m', keys') == RemoveAt(m[p], i) + FlattenOver(side, m, keys - {p})
  {
    FlattenAgrees(side, m, m', keys - {p});
    if p in keys' {
      FlattenUnfold(side, m', keys', p);
    }
  }

  lemma RemovePast(a: seq<Order>, b: seq<Order>, j: nat)
    requires j < |b|
    ensures RemoveAt(a + b, |a| + j) == a + RemoveAt(b, j)
  {
  }

  lemma FlattenDistinct(side: Side, m: Queues)
    requires WfQueues(side, m) && DistinctQueues(m)
    ensures WellFormedSide(side, Flatten(side, m))
  {
    FlattenDistinctOver(side, m, m.Keys);
  }

  lemma {:induction false} FlattenDistinctOver(side: Side, m: Queues, keys: set<i64>)
    requires WfQueues(side, m) && DistinctQueues(m) && keys <= m.Keys
    ensures WellFormedSide(side, FlattenOver(side, m, keys))
    decreases |keys|
  {
    if keys != {} {
      var b := BestKey(side, keys);
      var flat, head, tail := FlattenOver(side, m, keys), m[b], FlattenOver(side, m, keys - {b});
      FlattenDistinctOver(side, m, keys - {b});
      FlattenMembers(side, m, keys - {b});
      forall i, j | 0 <= i < |head| && 0 <= j < |tail|
        ensures head[i].id != tail[j].id && Better(side, head[i].price, tail[j].price)
        ensures tail[j].side == side
      {
        assert tail[j] in tail;
        var p :| p in keys - {b} && tail[j] in m[p];
        var k :| 0 <= k < |m[p]| && m[p][k] == tail[j];
      }
    }
  }

  /** Deleting an order from its queue deletes the element with its id from the flattened side. */
  lemma RemoveFlattens(side: Side, m: Queues, p: i64, i: nat)
    requires WfQueues(side, m) && DistinctQueues(m) && p in m && i < |m[p]|
    ensures var m' := WithQueue(m, p, RemoveAt(m[p], i));
      var flat := Flatten(side, m);
      var k := IndexOf(flat, m[p][i].id);
      && k < |flat| && flat[k] == m[p][i]
      && Flatten(side, m') == RemoveAt(flat, k)
  {
    var flat := Flatten(side, m);
    var m' := WithQueue(m, p, RemoveAt(m[p], i));
    var k := FlattenRemoveOver(side, m, m.Keys, m', m'.Keys, p, i);
    FlattenDistinct(side, m);
    assert HoldsId(flat, m[p][i].id);
    assert k == IndexOf(flat, m[p][i].id);
  }

  lemma FlattenHolds(side: Side, m: Queues, id: u64)
    ensures HoldsId(Flatten(side, m), id) <==> QueuesHold(m, id)
  {
    var flat := Flatten(side, m);
    FlattenMembers(side, m, m.Keys);
    if HoldsId(flat, id) {
      var k :| 0 <= k < |flat| && flat[k].id == id;
      assert flat[k] in flat;
      var p :| p in m && flat[k] in m[p];
      var i :| 0 <= i < |m[p]| && m[p][i] == flat[k];
    }
    if QueuesHold(m, id) {
      var p, i :| p in m && 0 <= i < |m[p]| && m[p][i].id == id;
      assert m[p][i] in m[p];
      assert m[p][i] in flat;
      var k :| 0 <= k < |flat| && flat[k] == m[p][i];
    }
  }

  /** A sequence of orders with distinct ids is as long as its set of ids is large. */
  lemma {:induction false} CountIds(orders: seq<Order>, ids: set<u64>)
    requires DistinctIds(orders) && forall id :: id in ids <==> HoldsId(orders, id)
    ensures |ids| == |orders|
  {
    if orders == [] {
      assert ids == {};
    } else {
      var first := orders[0].id;
      assert HoldsId(orders, first);
      forall id ensures id in ids - {first} <==> HoldsId(orders[1..], id) {
        if id in ids - {first} {
          var i :| 0 <= i < |orders| && orders[i].id == id;
          assert orders[1..][i - 1].id == id;
        }
        if HoldsId(orders[1..], id) {
          var i :| 0 <= i < |orders[1..]| && orders[1..][i].id == id;
          assert orders[i + 1].id == id;
        }
      }
      CountIds(orders[1..], ids - {first});
    }
  }
}
