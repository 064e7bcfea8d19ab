/**
  The order book of src/book.rs: two price maps of linked levels over one arena, an
  id-to-slot index and two cached best prices. `Valid()` is the whole-heap representation
  invariant; the ghost maps `bidQueues`/`askQueues` are what the book means: price to FIFO
  queue of orders.
 */
module OrderBooks {
  import opened Orders
  import opened Arenas
  import opened Levels
  import opened BookReps
  import BookSpec

  lemma SidesDisjoint(bids: Queues, asks: Queues)
    requires ApartIds(bids, asks)
    ensures BookSpec.DisjointIds(Flatten(Bid, bids), Flatten(Ask, asks))
  {
    var b, a := Flatten(Bid, bids), Flatten(Ask, asks);
    forall i, j | 0 <= i < |b| && 0 <= j < |a| ensures b[i].id != a[j].id {
      FlattenHolds(Bid, bids, b[i].id);
      FlattenHolds(Ask, asks, a[j].id);
    }
  }

  lemma HoldsEither(a: seq<Order>, b: seq<Order>, id: u64)
    ensures HoldsId(a + b, id) <==> HoldsId(a, id) || HoldsId(b, id)
  {
    if HoldsId(a, id) {
      var i :| 0 <= i < |a| && a[i].id == id;
      assert (a + b)[i].id == id;
    }
    if HoldsId(b, id) {
      var i :| 0 <= i < |b| && b[i].id == id;
      assert (a + b)[|a| + i].id == id;
    }
  }

  class OrderBook {
    var bids: map<i64, PriceLevel>
    var asks: map<i64, PriceLevel>
    var bestBid: Option<i64>
    var bestAsk: Option<i64>
    var orderIndex: map<u64, u32>
    const arena: Arena

    ghost var bidSlots: map<i64, seq<u32>>
    ghost var askSlots: map<i64, seq<u32>>
    ghost var bidQueues: Queues
    ghost var askQueues: Queues

    // ----- Abstraction and invariant

    function LevelsOn(side: Side): map<i64, PriceLevel>
      reads this
    {
      if side.Bid? then bids else asks
    }

    function BestOn(side: Side): Option<i64>
      reads this
    {
      if side.Bid? then bestBid else bestAsk
    }

    ghost function QueuesOn(side: Side): Queues
      reads this
    {
      if side.Bid? then bidQueues else askQueues
    }

    ghost function HalfOn(side: Side): Half
      reads this
    {
      if side.Bid? then Half(bids, bidSlots, bidQueues) else Half(asks, askSlots, askQueues)
    }

    ghost predicate BestOk()
      reads this
    {
      bestBid == BestPrice(Bid, bids.Keys) && bestAsk == BestPrice(Ask, asks.Keys)
    }

    ghost predicate Valid()
      reads this, arena, arena.storage
    {
      && arena.Valid()
      && RepOk(arena.storage[..], arena.free, orderIndex, Bid, HalfOn(Bid), HalfOn(Ask))
      && BestOk()
      && |orderIndex| == arena.count
    }

    /** The invariant seen from either side. */
    lemma ValidOn(side: Side)
      requires Valid()
      ensures RepOk(arena.storage[..], arena.free, orderIndex, side, HalfOn(side), HalfOn(side.Opposite()))
    {
      Flipped(arena.storage[..], arena.free, orderIndex, Bid, HalfOn(Bid), HalfOn(Ask));
    }

    /** What the book means: each side in price-time order. */
    ghost function View(): BookSpec.Book
      reads this
    {
      BookSpec.Book(Flatten(Bid, bidQueues), Flatten(Ask, askQueues), arena.capacity)
    }

    lemma ViewIds()
      requires Valid()
      ensures BookSpec.WellFormedSide(Bid, View().bids) && BookSpec.WellFormedSide(Ask, View().asks)
      ensures BookSpec.DisjointIds(View().bids, View().asks)
      ensures forall id :: id in orderIndex <==> View().Contains(id)
    {
      var mem, free, bid, ask := arena.storage[..], arena.free, HalfOn(Bid), HalfOn(Ask);
      SidesApart(mem, free, orderIndex, Bid, bid, ask);
      SideFacts(mem, free, orderIndex, Bid, bid, ask);
      ValidOn(Ask);
      SideFacts(mem, free, orderIndex, Ask, ask, bid);
      FlattenDistinct(Bid, bidQueues);
      FlattenDistinct(Ask, askQueues);
      SidesDisjoint(bidQueues, askQueues);
      forall id ensures id in orderIndex <==> View().Contains(id) {
        IndexKnows(mem, free, orderIndex, Bid, bid, ask, id);
        FlattenHolds(Bid, bidQueues, id);
        FlattenHolds(Ask, askQueues, id);
      }
    }

    /** One side's queues are well formed and its cached best price is the best key. */
    lemma SideShape(side: Side)
      requires Valid()
      ensures WfQueues(side, QueuesOn(side)) && DistinctQueues(QueuesOn(side))
      ensures LevelsOn(side).Keys == QueuesOn(side).Keys && BestOn(side) == BestPrice(side, QueuesOn(side).Keys)
    {
      ValidOn(side);
      SideFacts(arena.storage[..], arena.free, orderIndex, side, HalfOn(side), HalfOn(side.Opposite()));
    }

    /** The view of a valid book is well formed, and the index counts it. */
    lemma ViewWellFormed()
      requires Valid()
      ensures BookSpec.WellFormed(View()) && View().Count() == |orderIndex|
      ensures forall id :: id in orderIndex <==> View().Contains(id)
    {
      ViewIds();
      var b := View();
      forall id ensures id in orderIndex.Keys <==> HoldsId(b.bids + b.asks, id) {
        HoldsEither(b.bids, b.asks, id);
      }
      CountIds(b.bids + b.asks, orderIndex.Keys);
    }

    lemma ViewApart()
      requires Valid()
      ensures BookSpec.DisjointIds(View().bids, View().asks)
    {
      ViewIds();
    }

    /** What an insertion looks at, in the book and in its view. */
    lemma ViewCounts(id: u64)
      requires Valid()
      ensures id in orderIndex <==> View().Contains(id)
      ensures View().Count() == |orderIndex| <= arena.capacity
    {
      ViewWellFormed();
    }

    constructor (capacity: u32)
      ensures Valid() && fresh(arena) && fresh(arena.storage)
      ensures arena.capacity == capacity && bidQueues == map[] && askQueues == map[] && orderIndex == map[]
    {
      bids, asks, bestBid, bestAsk, orderIndex := map[], map[], None, None, map[];
      bidSlots, askSlots, bidQueues, askQueues := map[], map[], map[], map[];
      arena := new Arena(capacity);
      new;
      forall s: u32 | s < capacity ensures s in arena.free {
        assert arena.free[s] == s;
      }
    }

    /**
      Writes one side's level back after an edit, dropping it when its list is empty,
      together with that side's best price.
     */
    method StoreLevel(side: Side, price: i64, level: PriceLevel, best: Option<i64>, index: Index,
                      ghost slots: seq<u32>, ghost orders: seq<Order>)
      requires level.count == 0 <==> orders == []
      modifies this
      ensures orderIndex == index
      ensures HalfOn(side) == PutLevel(old(HalfOn(side)), price, level, slots, orders) && BestOn(side) == best
      ensures HalfOn(side.Opposite()) == old(HalfOn(side.Opposite()))
      ensures BestOn(side.Opposite()) == old(BestOn(side.Opposite()))
    {
      orderIndex := index;
      match side
      case Bid =>
        bestBid := best;
        if level.count == 0 {
          bids, bidSlots, bidQueues := bids - {price}, bidSlots - {price}, bidQueues - {price};
        } else {
          bids, bidSlots, bidQueues := bids[price := level], bidSlots[price := slots], bidQueues[price := orders];
        }
      case Ask =>
        bestAsk := best;
        if level.count == 0 {
          asks, askSlots, askQueues := asks - {price}, askSlots - {price}, askQueues - {price};
        } else {
          asks, askSlots, askQueues := asks[price := level], askSlots[price := slots], askQueues[price := orders];
        }
    }

    /** The arena already shows the level as `slots`/`orders` under the new index; the maps do not yet say so. */
    ghost predicate Pending(side: Side, price: i64, level: PriceLevel, index: Index,
                            slots: seq<u32>, orders: seq<Order>)
      reads this, arena, arena.storage
    {
      && arena.Valid() && |index| == arena.count && BestOk()
      && (level.count == 0 <==> orders == [])
      && RepOk(arena.storage[..], arena.free, index, side, PutLevel(HalfOn(side), price, level, slots, orders),
               HalfOn(side.Opposite()))
    }

    /** Brings the maps, the index and the best price in line with an edited arena. */
    method Commit(side: Side, price: i64, level: PriceLevel, best: Option<i64>, index: Index,
                  ghost slots: seq<u32>, ghost orders: seq<Order>)
      requires Pending(side, price, level, index, slots, orders)
      requires best == BestPrice(side, PutLevel(HalfOn(side), price, level, slots, orders).levels.Keys)
      modifies this
      ensures Valid() && orderIndex == index
      ensures HalfOn(side) == PutLevel(old(HalfOn(side)), price, level, slots, orders)
      ensures HalfOn(side.Opposite()) == old(HalfOn(side.Opposite()))
    {
      Flipped(arena.storage[..], arena.free, index, side, PutLevel(HalfOn(side), price, level, slots, orders),
              HalfOn(side.Opposite()));
      StoreLevel(side, price, level, best, index, slots, orders);
    }

    // ----- Operations

    /** The arena half of an insertion: take a slot and link it behind its level. */
    method LinkNew(order: Order) returns (r: Result<(u32, PriceLevel), ()>)
      requires Valid() && order.id !in orderIndex
      modifies arena, arena.storage
      ensures r.Failure? <==> old(arena.count) == arena.capacity
      ensures r.Failure? ==> Valid()
      ensures r.Success? ==>
        Pending(order.side, order.price, r.value.1, orderIndex[order.id := r.value.0],
                SlotsAt(HalfOn(order.side), order.price) + [r.value.0],
                OrdersAt(HalfOn(order.side), order.price) + [order])
    {
      var side, price := order.side, order.price;
      ValidOn(side);
      ghost var mem, free, h, other := arena.storage[..], arena.free, HalfOn(side), HalfOn(side.Opposite());
      LevelFacts(mem, free, orderIndex, side, h, other, price);
      var level := if price in LevelsOn(side) then LevelsOn(side)[price] else EMPTY_LEVEL;
      r := arena.AllocBack(order, level, SlotsAt(h, price));
      if r.Success? {
        InsertedRep(mem, arena.storage[..], free, orderIndex, side, h, other, order, r.value.1);
      }
    }

    /** The map half of an insertion. */
    method FinishInsert(order: Order, index: u32, level: PriceLevel)
      requires Pending(order.side, order.price, level, orderIndex[order.id := index],
                       SlotsAt(HalfOn(order.side), order.price) + [index],
                       OrdersAt(HalfOn(order.side), order.price) + [order])
      modifies this
      ensures Valid() && orderIndex == old(orderIndex)[order.id := index]
      ensures QueuesOn(order.side) == AppendTo(old(QueuesOn(order.side)), order)
      ensures QueuesOn(order.side.Opposite()) == old(QueuesOn(order.side.Opposite()))
    {
      var side, price := order.side, order.price;
      ghost var h := HalfOn(side);
      ghost var slots, orders := SlotsAt(h, price) + [index], OrdersAt(h, price) + [order];
      BestAfterPut(side, h, price, level, slots, orders);
      Commit(side, price, level, BestWith(side, BestOn(side), price), orderIndex[order.id := index], slots, orders);
    }

    method InsertOrder(order: Order) returns (r: Result<(), BookError>)
      requires Valid()
      modifies this, arena, arena.storage
      ensures Valid()
      ensures r == if order.id in old(orderIndex) then Failure(DuplicateOrderId(order.id))
                   else if |old(orderIndex)| == arena.capacity then Failure(ArenaFull)
                   else Success(())
      ensures r.Failure? ==> bidQueues == old(bidQueues) && askQueues == old(askQueues) && orderIndex == old(orderIndex)
      ensures r.Success? ==> QueuesOn(order.side) == AppendTo(old(QueuesOn(order.side)), order)
      ensures r.Success? ==> QueuesOn(order.side.Opposite()) == old(QueuesOn(order.side.Opposite()))
      ensures r.Success? ==> orderIndex.Keys == old(orderIndex.Keys) + {order.id}
    {
      if order.id in orderIndex {
        return Failure(DuplicateOrderId(order.id));
      }
      var a := LinkNew(order);
      if a.Failure? {
        return Failure(ArenaFull);
      }
      FinishInsert(order, a.value.0, a.value.1);
      r := Success(());
    }

    /** The map half of a removal or a reduction: an emptied level goes away and the best price follows. */
    method FinishEdit(side: Side, price: i64, level: PriceLevel, index: Index,
                      ghost slots: seq<u32>, ghost orders: seq<Order>)
      requires Pending(side, price, level, index, slots, orders) && price in LevelsOn(side)
      modifies this
      ensures Valid() && orderIndex == index
      ensures QueuesOn(side) == WithQueue(old(QueuesOn(side)), price, orders)
      ensures QueuesOn(side.Opposite()) == old(QueuesOn(side.Opposite()))
    {
      BestAfterPut(side, HalfOn(side), price, level, slots, orders);
      var best := if level.count == 0 then BestPrice(side, LevelsOn(side).Keys - {price}) else BestOn(side);
      Commit(side, price, level, best, index, slots, orders);
    }

    /** The arena half of a cancel. */
    method UnlinkOrder(side: Side, price: i64, index: u32,
                       ghost slots: seq<u32>, ghost orders: seq<Order>, ghost k: nat)
      returns (level: PriceLevel)
      requires Valid() && price in LevelsOn(side) && AtPrice(side, price, slots, orders)
      requires k < |slots| && slots[k] == index
      modifies arena, arena.storage
      ensures Pending(side, price, level, orderIndex - {orders[k].id}, Without(slots, k), BookSpec.RemoveAt(orders, k))
    {
      ValidOn(side);
      ghost var mem, free, next := arena.storage[..], arena.free, arena.freeHead;
      ghost var h, other := HalfOn(side), HalfOn(side.Opposite());
      LevelFacts(mem, free, orderIndex, side, h, other, price);
      assert orders[k] == ToOrder(mem[slots[k]]);
      level := arena.RemoveFree(LevelsOn(side)[price], index, slots, k);
      CancelledRep(mem, arena.storage[..], free, next, orderIndex, side, h, other, price, k, level);
    }

    /** Cancels by id; the missing-level error of the source is unreachable. */
    method CancelOrder(id: u64) returns (r: Result<Order, BookError>, ghost k: nat)
      requires Valid()
      modifies this, arena, arena.storage
      ensures Valid()
      ensures r.Failure? <==> id !in old(orderIndex)
      ensures r.Failure? ==> r.error == OrderNotFound(id)
      ensures r.Failure? ==> bidQueues == old(bidQueues) && askQueues == old(askQueues) && orderIndex == old(orderIndex)
      ensures r.Success? ==>
        && r.value.id == id && r.value.price in old(QueuesOn(r.value.side))
        && k < |old(QueuesOn(r.value.side))[r.value.price]|
        && old(QueuesOn(r.value.side))[r.value.price][k] == r.value
      ensures r.Success? ==>
        QueuesOn(r.value.side) == WithQueue(old(QueuesOn(r.value.side)), r.value.price,
          BookSpec.RemoveAt(old(QueuesOn(r.value.side))[r.value.price], k))
      ensures r.Success? ==> QueuesOn(r.value.side.Opposite()) == old(QueuesOn(r.value.side.Opposite()))
      ensures r.Success? ==> orderIndex == old(orderIndex) - {id}
    {
      if id !in orderIndex {
        return Failure(OrderNotFound(id)), 0;
      }
      k := IndexFacts(arena.storage[..], arena.free, orderIndex, Bid, HalfOn(Bid), HalfOn(Ask), id);
      var index := orderIndex[id];
      var order := ToOrder(arena.storage[index]);
      var side, price := order.side, order.price;
      ghost var slots, orders := HalfOn(side).slots[price], QueuesOn(side)[price];
      var level := UnlinkOrder(side, price, index, slots, orders, k);
      FinishEdit(side, price, level, orderIndex - {id}, Without(slots, k), BookSpec.RemoveAt(orders, k));
      r := Success(order);
    }

    /** The oldest order at a price, if the level exists. */
    method PeekFront(side: Side, price: i64) returns (r: Option<Order>)
      requires Valid()
      ensures price in QueuesOn(side) ==> QueuesOn(side)[price] != []
      ensures r == if price in QueuesOn(side) then Some(QueuesOn(side)[price][0]) else None
    {
      var levels := LevelsOn(side);
      ValidOn(side);
      LevelFacts(arena.storage[..], arena.free, orderIndex, side, HalfOn(side), HalfOn(side.Opposite()), price);
      if price !in levels {
        return None;
      }
      assert QueuesOn(side)[price][0] == ToOrder(arena.storage[..][HalfOn(side).slots[price][0]]);
      var level := levels[price];
      assert level.head != NULL;  // a stored level is never empty
      r := Some(ToOrder(arena.storage[level.head]));
    }

    /** The slots and orders of one level. */
    ghost predicate AtPrice(side: Side, price: i64, slots: seq<u32>, orders: seq<Order>)
      reads this
    {
      SlotsAt(HalfOn(side), price) == slots && OrdersAt(HalfOn(side), price) == orders && |slots| == |orders|
    }

    /** The arena half of a partial fill of the front order. */
    method ReduceFront(side: Side, price: i64, fill: u64, ghost slots: seq<u32>, ghost orders: seq<Order>)
      returns (level: PriceLevel)
      requires Valid() && price in LevelsOn(side) && AtPrice(side, price, slots, orders)
      requires orders != [] && fill < orders[0].quantity
      modifies arena.storage
      ensures Pending(side, price, level, orderIndex, slots, FrontReduced(orders, fill))
    {
      ValidOn(side);
      ghost var mem, h, other := arena.storage[..], HalfOn(side), HalfOn(side.Opposite());
      LevelFacts(mem, arena.free, orderIndex, side, h, other, price);
      assert orders[0] == ToOrder(mem[slots[0]]);
      ReducedRep(mem, arena.free, orderIndex, side, h, other, price, fill);
      level := LevelsOn(side)[price];
      arena.Reduce(level.head, fill);
      level := level.(qty := WrapSub(level.qty, fill));
    }

    /** The arena half of a fill that uses the front order up. */
    method ConsumeFront(side: Side, price: i64, fill: u64, ghost slots: seq<u32>, ghost orders: seq<Order>)
      returns (level: PriceLevel)
      requires Valid() && price in LevelsOn(side) && AtPrice(side, price, slots, orders)
      requires orders != [] && fill == orders[0].quantity
      modifies arena, arena.storage
      ensures Pending(side, price, level, orderIndex - {orders[0].id}, Without(slots, 0), orders[1..])
    {
      ValidOn(side);
      ghost var mem, free, next := arena.storage[..], arena.free, arena.freeHead;
      ghost var h, other := HalfOn(side), HalfOn(side.Opposite());
      LevelFacts(mem, free, orderIndex, side, h, other, price);
      assert orders[0] == ToOrder(mem[slots[0]]);
      level := arena.Consume(LevelsOn(side)[price], fill, slots);
      ConsumedRep(mem, arena.storage[..], free, next, orderIndex, side, h, other, price, level);
    }

    /** A fill within what the front order has: what is left of it stays, nothing of it goes. */
    method FillFront(side: Side, price: i64, front: Order, fill: u64)
      requires Valid() && price in QueuesOn(side) && QueuesOn(side)[price] != []
      requires QueuesOn(side)[price][0] == front && fill <= front.quantity
      modifies this, arena, arena.storage
      ensures Valid()
      ensures QueuesOn(side) == WithQueue(old(QueuesOn(side)), price, TakeFrom(old(QueuesOn(side))[price], fill))
      ensures QueuesOn(side.Opposite()) == old(QueuesOn(side.Opposite()))
      ensures orderIndex == if fill == front.quantity then old(orderIndex) - {front.id} else old(orderIndex)
    {
      LevelAtPrice(side, price);
      ghost var slots, orders := SlotsAt(HalfOn(side), price), OrdersAt(HalfOn(side), price);
      var remaining := front.quantity - fill;
      if remaining == 0 {
        var level := ConsumeFront(side, price, fill, slots, orders);
        FinishEdit(side, price, level, orderIndex - {front.id}, Without(slots, 0), orders[1..]);
      } else {
        var level := ReduceFront(side, price, fill, slots, orders);
        FinishEdit(side, price, level, orderIndex, slots, FrontReduced(orders, fill));
      }
    }

    lemma LevelAtPrice(side: Side, price: i64)
      requires Valid() && price in QueuesOn(side)
      ensures price in LevelsOn(side)
      ensures AtPrice(side, price, SlotsAt(HalfOn(side), price), OrdersAt(HalfOn(side), price))
    {
      ValidOn(side);
      LevelFacts(arena.storage[..], arena.free, orderIndex, side, HalfOn(side), HalfOn(side.Opposite()), price);
    }

    /** Fills the oldest order at a price; it leaves the book when nothing of it remains. */
    method ReduceFrontQuantity(side: Side, price: i64, fill: u64) returns (r: Result<u64, BookError>)
      requires Valid()
      modifies this, arena, arena.storage
      ensures Valid()
      ensures price in old(QueuesOn(side)) ==> old(QueuesOn(side))[price] != []
      ensures r == if price !in old(QueuesOn(side)) then Failure(PriceLevelNotFound(price))
                   else var front := old(QueuesOn(side))[price][0];
                     if fill > front.quantity then Failure(FillExceedsQuantity(front.quantity, fill))
                     else Success(front.quantity - fill)
      ensures r.Failure? ==> bidQueues == old(bidQueues) && askQueues == old(askQueues) && orderIndex == old(orderIndex)
      ensures r.Success? ==>
        && QueuesOn(side) == WithQueue(old(QueuesOn(side)), price, TakeFrom(old(QueuesOn(side))[price], fill))
        && QueuesOn(side.Opposite()) == old(QueuesOn(side.Opposite()))
        && orderIndex == if r.value == 0 then old(orderIndex) - {old(QueuesOn(side))[price][0].id} else old(orderIndex)
    {
      var front := PeekFront(side, price);
      if front.None? {
        return Failure(PriceLevelNotFound(price));
      }
      if fill > front.value.quantity {
        return Failure(FillExceedsQuantity(front.value.quantity, fill));
      }
      FillFront(side, price, front.value, fill);
      r := Success(front.value.quantity - fill);
    }

    // ----- Listing

    /** Walks one level's list from its head. */
    method LevelOrders(side: Side, price: i64) returns (orders: seq<Order>)
      requires Valid() && price in LevelsOn(side)
      ensures price in QueuesOn(side) && orders == QueuesOn(side)[price]
    {
      ValidOn(side);
      ghost var mem := arena.storage[..];
      LevelFacts(mem, arena.free, orderIndex, side, HalfOn(side), HalfOn(side.Opposite()), price);
      ghost var slots := HalfOn(side).slots[price];
      ghost var q := QueuesOn(side)[price];
      assert Linked(mem, LevelsOn(side)[price], slots) && Shows(mem, slots, q);
      orders := WalkFrom(LevelsOn(side)[price].head, slots, q);
    }

    method WalkFrom(head: u32, ghost slots: seq<u32>, ghost q: seq<Order>) returns (orders: seq<Order>)
      requires arena.Valid() && Forward(arena.storage[..], slots) && Shows(arena.storage[..], slots, q)
      requires head == At(slots, 0)
      ensures orders == q
    {
      var idx := head;
      orders := [];
      ghost var i := 0;
      while idx != NULL
        invariant 0 <= i <= |slots| && idx == At(slots, i) && orders == q[..i]
        decreases |slots| - i
      {
        var node := arena.storage[idx];
        assert q[i] == ToOrder(node) && arena.storage[..][slots[i]] == node;
        orders := orders + [ToOrder(node)];
        idx := node.next;
        i := i + 1;
      }
    }

    /** One side, best price first, first in first out within a level. */
    method SideOrders(side: Side) returns (orders: seq<Order>)
      requires Valid()
      ensures orders == Flatten(side, QueuesOn(side))
    {
      ValidOn(side);
      ghost var m := QueuesOn(side);
      KeysAgree(arena.storage[..], arena.free, orderIndex, side, HalfOn(side), HalfOn(side.Opposite()));
      var keys := LevelsOn(side).Keys;
      orders := [];
      while keys != {}
        invariant keys <= m.Keys && m.Keys == LevelsOn(side).Keys
        invariant orders + FlattenOver(side, m, keys) == Flatten(side, m)
        decreases |keys|
      {
        var p := BestKey(side, keys);
        var level := LevelOrders(side, p);
        FlattenNext(side, m, keys, orders);
        orders, keys := orders + level, keys - {p};
      }
    }

    /** Asks from the lowest price, then bids from the highest. */
    method AllRestingOrders() returns (orders: seq<Order>)
      requires Valid()
      ensures orders == Flatten(Ask, askQueues) + Flatten(Bid, bidQueues)
    {
      var asks := SideOrders(Ask);
      var bids := SideOrders(Bid);
      orders := asks + bids;
    }
  }
}
