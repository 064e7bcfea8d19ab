/**
  The representation invariant of the book in src/book.rs, on plain values: the arena read
  as a sequence, its free list, the id index, and for each side the levels, the slots of
  each level's list and the orders they hold. Each list edit of the arena is shown to
  carry the whole invariant along.
 */
module BookReps {
  import opened Orders
  import opened Arenas
  import opened Levels
  import BookSpec
  import BookTheorems

  type Index = map<u64, u32>

  /** One side: its levels, the slots of each level's list, and the orders in them. */
  datatype Half = Half(levels: map<i64, PriceLevel>, slots: map<i64, seq<u32>>, queues: Queues)

  ghost predicate Shows(mem: seq<Node>, slots: seq<u32>, orders: seq<Order>) {
    && |slots| == |orders| && InRange(slots, |mem|)
    && forall i {:trigger orders[i]} :: 0 <= i < |slots| ==> orders[i] == ToOrder(mem[slots[i]])
  }

  ghost predicate LevelOk(mem: seq<Node>, level: PriceLevel, slots: seq<u32>, orders: seq<Order>) {
    && Linked(mem, level, slots) && Shows(mem, slots, orders)
    && level.qty == TotalQuantity(orders) % U64_MOD
  }

  ghost predicate Indexed(index: Index, slots: seq<u32>, orders: seq<Order>) {
    && |slots| == |orders|
    && forall i {:trigger orders[i]} :: 0 <= i < |orders| ==> orders[i].id in index && index[orders[i].id] == slots[i]
  }

  ghost predicate HalfOk(mem: seq<Node>, index: Index, h: Half) {
    && h.levels.Keys == h.queues.Keys && h.slots.Keys == h.queues.Keys
    && forall p :: p in h.queues ==>
         LevelFits(mem, index, h.levels[p], h.slots[p], h.queues[p])
  }

  /** Every indexed slot holds its id and lies in the list of its own side and price. */
  ghost predicate IndexOk(mem: seq<Node>, index: Index, side: Side, mine: Half, other: Half) {
    && (forall id :: id in index ==> index[id] < |mem| && mem[index[id]].id == id)
    && (forall id {:trigger Resides(mem[index[id]], index[id], side, mine, other)} ::
          id in index ==> Resides(mem[index[id]], index[id], side, mine, other))
  }

  ghost predicate Resides(n: Node, s: u32, side: Side, mine: Half, other: Half) {
    var h := if n.side == side then mine else other;
    n.price in h.slots && s in h.slots[n.price]
  }

  /** Free slots and indexed slots partition the arena. */
  ghost predicate FreeOk(mem: seq<Node>, index: Index, free: seq<u32>) {
    && (forall id :: id in index ==> index[id] !in free)
    && (forall s: u32 {:trigger s in free} :: s < |mem| ==> s in free || (mem[s].id in index && index[mem[s].id] == s))
  }

  // ----- What a change at one level leaves alone

  ghost predicate Elsewhere(n: Node, side: Side, p: i64) { n.side != side || n.price != p }

  ghost predicate KeepsElsewhere(
    mem: seq<Node>, index: Index, mem': seq<Node>, index': Index, side: Side, p: i64)
  {
    && |mem'| == |mem|
    && forall id :: id in index && index[id] < |mem| && Elsewhere(mem[index[id]], side, p) ==>
         id in index' && index'[id] == index[id] && mem'[index[id]] == mem[index[id]]
  }

  ghost function PutLevel(h: Half, p: i64, level: PriceLevel, slots: seq<u32>, orders: seq<Order>): Half {
    if orders == [] then Half(h.levels - {p}, h.slots - {p}, h.queues - {p})
    else Half(h.levels[p := level], h.slots[p := slots], h.queues[p := orders])
  }

  ghost predicate AtLevel(orders: seq<Order>, side: Side, p: i64) {
    forall i :: 0 <= i < |orders| ==> orders[i].side == side && orders[i].price == p
  }

  lemma LevelKept(mem: seq<Node>, index: Index, mem': seq<Node>, index': Index, side: Side, p: i64,
                  level: PriceLevel, slots: seq<u32>, orders: seq<Order>)
    requires KeepsElsewhere(mem, index, mem', index', side, p)
    requires LevelOk(mem, level, slots, orders) && Indexed(index, slots, orders)
    requires forall i :: 0 <= i < |orders| ==> orders[i].side != side || orders[i].price != p
    ensures LevelOk(mem', level, slots, orders) && Indexed(index', slots, orders)
  {
    forall i | 0 <= i < |slots|
      ensures mem'[slots[i]] == mem[slots[i]] && orders[i].id in index' && index'[orders[i].id] == slots[i]
    {
      assert index[orders[i].id] == slots[i];
    }
  }

  lemma HalfKept(mem: seq<Node>, index: Index, mem': seq<Node>, index': Index, side: Side, p: i64, h: Half)
    requires HalfOk(mem, index, h) && WfQueues(side.Opposite(), h.queues)
    requires KeepsElsewhere(mem, index, mem', index', side, p)
    ensures HalfOk(mem', index', h)
  {
    forall x | x in h.queues ensures LevelFits(mem', index', h.levels[x], h.slots[x], h.queues[x]) {
      LevelKept(mem, index, mem', index', side, p, h.levels[x], h.slots[x], h.queues[x]);
    }
  }

  ghost predicate LevelFits(mem: seq<Node>, index: Index, level: PriceLevel, slots: seq<u32>, orders: seq<Order>) {
    LevelOk(mem, level, slots, orders) && Indexed(index, slots, orders)
  }

  lemma OtherLevelsKept(mem: seq<Node>, index: Index, mem': seq<Node>, index': Index, side: Side, p: i64, h: Half)
    requires HalfOk(mem, index, h) && WfQueues(side, h.queues)
    requires KeepsElsewhere(mem, index, mem', index', side, p)
    ensures forall x :: x in h.queues && x != p ==> LevelFits(mem', index', h.levels[x], h.slots[x], h.queues[x])
  {
    forall x | x in h.queues && x != p ensures LevelFits(mem', index', h.levels[x], h.slots[x], h.queues[x]) {
      LevelKept(mem, index, mem', index', side, p, h.levels[x], h.slots[x], h.queues[x]);
    }
  }

  lemma HalfUpdated(mem: seq<Node>, index: Index, mem': seq<Node>, index': Index, side: Side, p: i64, h: Half,
                    level: PriceLevel, slots: seq<u32>, orders: seq<Order>)
    requires HalfOk(mem, index, h) && WfQueues(side, h.queues)
    requires KeepsElsewhere(mem, index, mem', index', side, p)
    requires LevelFits(mem', index', level, slots, orders)
    ensures HalfOk(mem', index', PutLevel(h, p, level, slots, orders))
  {
    OtherLevelsKept(mem, index, mem', index', side, p, h);
    PutFits(mem', index', h, p, level, slots, orders);
  }

  lemma PutFits(mem: seq<Node>, index: Index, h: Half, p: i64, level: PriceLevel, slots: seq<u32>, orders: seq<Order>)
    requires h.levels.Keys == h.queues.Keys && h.slots.Keys == h.queues.Keys
    requires forall x :: x in h.queues && x != p ==> LevelFits(mem, index, h.levels[x], h.slots[x], h.queues[x])
    requires LevelFits(mem, index, level, slots, orders)
    ensures HalfOk(mem, index, PutLevel(h, p, level, slots, orders))
  {
  }

  lemma WfUpdated(side: Side, p: i64, h: Half, level: PriceLevel, slots: seq<u32>, orders: seq<Order>)
    requires WfQueues(side, h.queues) && AtLevel(orders, side, p)
    ensures WfQueues(side, PutLevel(h, p, level, slots, orders).queues)
  {
  }

  lemma IndexUpdated(mem: seq<Node>, index: Index, mem': seq<Node>, index': Index, side: Side, p: i64,
                     h: Half, other: Half, level: PriceLevel, slots: seq<u32>, orders: seq<Order>)
    requires IndexOk(mem, index, side, h, other)
    requires KeepsElsewhere(mem, index, mem', index', side, p)
    requires Shows(mem', slots, orders) && Indexed(index', slots, orders) && AtLevel(orders, side, p)
    requires forall id :: id in index' ==>
      (id in index && Elsewhere(mem[index[id]], side, p)) || (exists i :: 0 <= i < |orders| && orders[i].id == id)
    ensures IndexOk(mem', index', side, PutLevel(h, p, level, slots, orders), other)
  {
    var h' := PutLevel(h, p, level, slots, orders);
    forall id | id in index'
      ensures index'[id] < |mem'| && mem'[index'[id]].id == id
      ensures Resides(mem'[index'[id]], index'[id], side, h', other)
    {
      if i :| 0 <= i < |orders| && orders[i].id == id {
        assert index'[id] == slots[i];
      } else {
        assert id in index && index'[id] == index[id];
        assert Resides(mem[index[id]], index[id], side, h, other);
      }
    }
  }

  // ----- Distinct ids, and orders per slot

  lemma SlotsDetermineOrders(mem: seq<Node>, index: Index, side: Side, h: Half)
    requires HalfOk(mem, index, h) && WfQueues(side, h.queues)
    ensures DistinctQueues(h.queues)
  {
  }

  // ----- The three level edits

  lemma AppendTotal(orders: seq<Order>, o: Order)
    ensures TotalQuantity(orders + [o]) == TotalQuantity(orders) + o.quantity
  {
    BookTheorems.TotalSplit(orders, [o]);
  }

  lemma {:induction false} MiddleTotal(a: seq<Order>, x: Order, b: seq<Order>)
    ensures TotalQuantity(a + [x] + b) == TotalQuantity(a + b) + x.quantity
  {
    BookTheorems.TotalSplit(a + [x], b);
    BookTheorems.TotalSplit(a, [x]);
    BookTheorems.TotalSplit(a, b);
    assert [x][1..] == [];
  }

  lemma {:induction false} RemoveTotal(orders: seq<Order>, k: nat)
    requires k < |orders|
    ensures TotalQuantity(BookSpec.RemoveAt(orders, k)) == TotalQuantity(orders) - orders[k].quantity
  {
    MiddleTotal(orders[..k], orders[k], orders[k + 1..]);
    assert orders == orders[..k] + [orders[k]] + orders[k + 1..];
  }

  lemma WrapTotals(total: nat, x: u64)
    ensures WrapAdd(total % U64_MOD, x) == (total + x) % U64_MOD
    ensures x <= total ==> WrapSub(total % U64_MOD, x) == (total - x) % U64_MOD
  {
  }

  lemma ShowsAppended(mem: seq<Node>, mem': seq<Node>, slots: seq<u32>, orders: seq<Order>, s: u32)
    requires Shows(mem, slots, orders) && s < |mem| && OnlyLinks(mem, mem', slots + [s])
    ensures Shows(mem', slots + [s], orders + [ToOrder(mem[s])])
  {
  }

  lemma QtyAppended(level: PriceLevel, level': PriceLevel, orders: seq<Order>, o: Order)
    requires level.qty == TotalQuantity(orders) % U64_MOD && level'.qty == WrapAdd(level.qty, o.quantity)
    ensures level'.qty == TotalQuantity(orders + [o]) % U64_MOD
  {
    AppendTotal(orders, o);
    WrapTotals(TotalQuantity(orders), o.quantity);
  }

  lemma QtyRemoved(level: PriceLevel, level': PriceLevel, orders: seq<Order>, k: nat)
    requires k < |orders|
    requires level.qty == TotalQuantity(orders) % U64_MOD && level'.qty == WrapSub(level.qty, orders[k].quantity)
    ensures level'.qty == TotalQuantity(BookSpec.RemoveAt(orders, k)) % U64_MOD
  {
    RemoveTotal(orders, k);
    WrapTotals(TotalQuantity(orders), orders[k].quantity);
  }

  lemma LevelAppended(mem: seq<Node>, mem': seq<Node>, level: PriceLevel, level': PriceLevel,
                      slots: seq<u32>, orders: seq<Order>, s: u32, o: Order)
    requires Shows(mem, slots, orders) && s < |mem| && ToOrder(mem[s]) == o
    requires OnlyLinks(mem, mem', slots + [s]) && Linked(mem', level', slots + [s])
    requires level.qty == TotalQuantity(orders) % U64_MOD && level'.qty == WrapAdd(level.qty, o.quantity)
    ensures LevelOk(mem', level', slots + [s], orders + [o])
  {
    ShowsAppended(mem, mem', slots, orders, s);
    QtyAppended(level, level', orders, o);
  }

  lemma ShowsRemoved(mem: seq<Node>, mem': seq<Node>, slots: seq<u32>, orders: seq<Order>, k: nat)
    requires Shows(mem, slots, orders) && k < |slots| && OnlyLinks(mem, mem', Without(slots, k))
    ensures Shows(mem', Without(slots, k), BookSpec.RemoveAt(orders, k))
  {
  }

  lemma LevelRemoved(mem: seq<Node>, mem': seq<Node>, level: PriceLevel, level': PriceLevel,
                     slots: seq<u32>, orders: seq<Order>, k: nat)
    requires Shows(mem, slots, orders) && k < |slots|
    requires OnlyLinks(mem, mem', Without(slots, k)) && Linked(mem', level', Without(slots, k))
    requires level.qty == TotalQuantity(orders) % U64_MOD
    requires level'.qty == WrapSub(level.qty, mem[slots[k]].quantity)
    ensures LevelOk(mem', level', Without(slots, k), BookSpec.RemoveAt(orders, k))
  {
    ShowsRemoved(mem, mem', slots, orders, k);
    assert orders[k] == ToOrder(mem[slots[k]]);
    QtyRemoved(level, level', orders, k);
  }

  /** Writing to a slot does not disturb a list it is not in. */
  lemma LevelIgnores(mem: seq<Node>, s: u32, n: Node, level: PriceLevel, slots: seq<u32>, orders: seq<Order>)
    requires LevelOk(mem, level, slots, orders) && s < |mem| && s !in slots
    ensures LevelOk(mem[s := n], level, slots, orders)
  {
  }

  lemma ShowsReduced(mem: seq<Node>, slots: seq<u32>, orders: seq<Order>, fill: u64)
    requires Shows(mem, slots, orders) && NoDup(slots) && slots != [] && fill <= orders[0].quantity
    ensures Shows(Reduced(mem, slots[0], fill), slots,
                  [orders[0].(quantity := orders[0].quantity - fill)] + orders[1..])
  {
  }

  lemma LevelReduced(mem: seq<Node>, level: PriceLevel, slots: seq<u32>, orders: seq<Order>, fill: u64)
    requires LevelOk(mem, level, slots, orders) && slots != [] && fill <= orders[0].quantity
    ensures LevelOk(Reduced(mem, slots[0], fill), level.(qty := WrapSub(level.qty, fill)), slots,
                    [orders[0].(quantity := orders[0].quantity - fill)] + orders[1..])
  {
    ShowsReduced(mem, slots, orders, fill);
    LinkedReduced(mem, level, slots, fill);
    QtyReduced(orders, fill);
  }

  lemma LinkedReduced(mem: seq<Node>, level: PriceLevel, slots: seq<u32>, fill: u64)
    requires Linked(mem, level, slots) && slots != [] && fill <= mem[slots[0]].quantity
    ensures Linked(Reduced(mem, slots[0], fill), level.(qty := WrapSub(level.qty, fill)), slots)
  {
  }

  lemma QtyReduced(orders: seq<Order>, fill: u64)
    requires orders != [] && fill <= orders[0].quantity
    ensures WrapSub(TotalQuantity(orders) % U64_MOD, fill)
         == TotalQuantity([orders[0].(quantity := orders[0].quantity - fill)] + orders[1..]) % U64_MOD
  {
    var orders' := [orders[0].(quantity := orders[0].quantity - fill)] + orders[1..];
    assert orders'[1..] == orders[1..];
    WrapTotals(TotalQuantity(orders), fill);
  }

  // ----- The whole representation, and the edits it survives

  ghost predicate RepBody(mem: seq<Node>, free: seq<u32>, index: Index, side: Side, mine: Half, other: Half) {
    && HalfOk(mem, index, mine) && WfQueues(side, mine.queues)
    && HalfOk(mem, index, other) && WfQueues(side.Opposite(), other.queues)
    && IndexOk(mem, index, side, mine, other)
    && FreeOk(mem, index, free)
  }

  lemma RepFlip(mem: seq<Node>, free: seq<u32>, index: Index, side: Side, mine: Half, other: Half)
    requires RepBody(mem, free, index, side, mine, other)
    ensures RepBody(mem, free, index, side.Opposite(), other, mine)
  {
    forall id | id in index ensures Resides(mem[index[id]], index[id], side.Opposite(), other, mine) {
      assert Resides(mem[index[id]], index[id], side, mine, other);
    }
  }

  /** The slots of a level hold orders of its side and price, and are not free. */
  lemma LevelSlots(mem: seq<Node>, free: seq<u32>, index: Index, side: Side, h: Half, other: Half, p: i64)
    requires RepBody(mem, free, index, side, h, other) && p in h.queues
    ensures LevelFits(mem, index, h.levels[p], h.slots[p], h.queues[p]) && h.queues[p] != []
    ensures AtLevel(h.queues[p], side, p)
    ensures forall s :: s in h.slots[p] ==> s < |mem| && !Elsewhere(mem[s], side, p) && s !in free
  {
    assert LevelFits(mem, index, h.levels[p], h.slots[p], h.queues[p]);
    forall s | s in h.slots[p] ensures s < |mem| && !Elsewhere(mem[s], side, p) && s !in free {
      var i :| 0 <= i < |h.slots[p]| && h.slots[p][i] == s;
      assert h.queues[p][i] == ToOrder(mem[s]) && index[h.queues[p][i].id] == s;
    }
  }

  lemma ReduceKeepsElsewhere(mem: seq<Node>, index: Index, side: Side, p: i64, s: u32, fill: u64)
    requires s < |mem| && !Elsewhere(mem[s], side, p) && fill <= mem[s].quantity
    ensures KeepsElsewhere(mem, index, Reduced(mem, s, fill), index, side, p)
  {
  }

  /** Level p exists and position k of its list holds position k of its queue. */
  ghost predicate Holds(mem: seq<Node>, h: Half, p: i64, k: nat) {
    && p in h.levels && p in h.slots && p in h.queues && |h.slots[p]| == |h.queues[p]| && k < |h.queues[p]|
    && h.slots[p][k] < |mem| && h.queues[p][k] == ToOrder(mem[h.slots[p][k]])
  }

  ghost function FrontReduced(orders: seq<Order>, fill: u64): seq<Order>
    requires orders != [] && fill <= orders[0].quantity
  {
    [orders[0].(quantity := orders[0].quantity - fill)] + orders[1..]
  }

  lemma ReduceAtLevel(orders: seq<Order>, side: Side, p: i64, fill: u64)
    requires AtLevel(orders, side, p) && orders != [] && fill <= orders[0].quantity
    ensures AtLevel(FrontReduced(orders, fill), side, p)
  {
  }

  lemma ReduceFits(mem: seq<Node>, index: Index, side: Side, p: i64,
                   level: PriceLevel, slots: seq<u32>, orders: seq<Order>, fill: u64)
    requires LevelFits(mem, index, level, slots, orders) && AtLevel(orders, side, p)
    requires orders != [] && fill <= orders[0].quantity
    ensures mem[slots[0]].quantity == orders[0].quantity
    ensures LevelFits(Reduced(mem, slots[0], fill), index, level.(qty := WrapSub(level.qty, fill)),
                      slots, FrontReduced(orders, fill))
    ensures KeepsElsewhere(mem, index, Reduced(mem, slots[0], fill), index, side, p)
  {
    assert orders[0] == ToOrder(mem[slots[0]]);
    LevelReduced(mem, level, slots, orders, fill);
    ReduceKeepsElsewhere(mem, index, side, p, slots[0], fill);
    IndexedReduced(index, slots, orders, FrontReduced(orders, fill));
  }

  /** A partial fill of the front order of a level. */
  lemma ReduceRep(mem: seq<Node>, free: seq<u32>, index: Index, side: Side, h: Half, other: Half, p: i64, fill: u64)
    requires RepBody(mem, free, index, side, h, other) && Holds(mem, h, p, 0) && fill <= h.queues[p][0].quantity
    ensures RepBody(Reduced(mem, h.slots[p][0], fill), free, index, side,
                  PutLevel(h, p, h.levels[p].(qty := WrapSub(h.levels[p].qty, fill)), h.slots[p],
                           FrontReduced(h.queues[p], fill)), other)
  {
    var level, slots, orders :=
      h.levels[p].(qty := WrapSub(h.levels[p].qty, fill)), h.slots[p], FrontReduced(h.queues[p], fill);
    var mem' := Reduced(mem, slots[0], fill);
    LevelSlots(mem, free, index, side, h, other, p);
    ReduceFits(mem, index, side, p, h.levels[p], slots, h.queues[p], fill);
    ReduceAtLevel(h.queues[p], side, p, fill);
    HalfUpdated(mem, index, mem', index, side, p, h, level, slots, orders);
    WfUpdated(side, p, h, level, slots, orders);
    HalfKept(mem, index, mem', index, side, p, other);
    ReduceKeepsIndex(mem, index, side, h, other, p, fill, level, orders);
  }

  lemma IndexedReduced(index: Index, slots: seq<u32>, orders: seq<Order>, orders': seq<Order>)
    requires Indexed(index, slots, orders) && |orders'| == |orders|
    requires forall i :: 0 <= i < |orders| ==> orders'[i].id == orders[i].id
    ensures Indexed(index, slots, orders')
  {
  }

  lemma ReduceKeepsIndex(mem: seq<Node>, index: Index, side: Side, h: Half, other: Half, p: i64, fill: u64,
                         level: PriceLevel, orders: seq<Order>)
    requires IndexOk(mem, index, side, h, other) && p in h.slots && orders != []
    requires h.slots[p] != [] && h.slots[p][0] < |mem| && fill <= mem[h.slots[p][0]].quantity
    ensures IndexOk(Reduced(mem, h.slots[p][0], fill), index, side, PutLevel(h, p, level, h.slots[p], orders), other)
  {
    var mem' := Reduced(mem, h.slots[p][0], fill);
    forall id | id in index
      ensures mem'[index[id]].id == id
      ensures Resides(mem'[index[id]], index[id], side, PutLevel(h, p, level, h.slots[p], orders), other)
    {
      assert Resides(mem[index[id]], index[id], side, h, other);
    }
  }

  /** Unlinking a slot from its level and freeing it. */
  lemma RemoveKeepsElsewhere(mem: seq<Node>, mem': seq<Node>, index: Index, side: Side, p: i64,
                             slots: seq<u32>, k: nat, id: u64, n: Node)
    requires k < |slots| && OnlyLinks(mem, mem', Without(slots, k)) && slots[k] < |mem|
    requires forall s :: s in slots ==> s < |mem| && !Elsewhere(mem[s], side, p)
    requires id in index && index[id] == slots[k]
    ensures KeepsElsewhere(mem, index, mem'[slots[k] := n], index - {id}, side, p)
  {
  }

  lemma RemoveFits(mem: seq<Node>, mem': seq<Node>, index: Index, h: Half, p: i64, k: nat, level: PriceLevel, n: Node)
    requires p in h.levels && p in h.slots && p in h.queues && k < |h.slots[p]|
    requires LevelFits(mem, index, h.levels[p], h.slots[p], h.queues[p])
    requires OnlyLinks(mem, mem', Without(h.slots[p], k)) && Linked(mem', level, Without(h.slots[p], k))
    requires level.qty == WrapSub(h.levels[p].qty, mem[h.slots[p][k]].quantity)
    ensures LevelFits(mem'[h.slots[p][k] := n], index - {h.queues[p][k].id}, level,
                      Without(h.slots[p], k), BookSpec.RemoveAt(h.queues[p], k))
  {
    var slots, orders := h.slots[p], h.queues[p];
    LevelRemoved(mem, mem', h.levels[p], level, slots, orders, k);
    assert slots[k] !in Without(slots, k);
    LevelIgnores(mem', slots[k], n, level, Without(slots, k), BookSpec.RemoveAt(orders, k));
    IndexedRemoved(index, slots, orders, k);
  }

  lemma IndexedRemoved(index: Index, slots: seq<u32>, orders: seq<Order>, k: nat)
    requires Indexed(index, slots, orders) && NoDup(slots) && k < |slots|
    ensures Indexed(index - {orders[k].id}, Without(slots, k), BookSpec.RemoveAt(orders, k))
  {
  }

  /** mem' is mem with position k of level p unlinked, and `level` is what remains of the level. */
  ghost predicate Unlinked(mem: seq<Node>, mem': seq<Node>, h: Half, p: i64, k: nat, level: PriceLevel) {
    && Holds(mem, h, p, k)
    && OnlyLinks(mem, mem', Without(h.slots[p], k)) && Linked(mem', level, Without(h.slots[p], k))
    && level.qty == WrapSub(h.levels[p].qty, mem[h.slots[p][k]].quantity)
  }

  lemma RemoveLevel(mem: seq<Node>, mem': seq<Node>, free: seq<u32>, index: Index, side: Side, h: Half, other: Half,
                    p: i64, k: nat, level: PriceLevel, n: Node)
    requires RepBody(mem, free, index, side, h, other) && Unlinked(mem, mem', h, p, k, level)
    ensures var mem2, index2 := mem'[h.slots[p][k] := n], index - {h.queues[p][k].id};
      && KeepsElsewhere(mem, index, mem2, index2, side, p)
      && LevelFits(mem2, index2, level, Without(h.slots[p], k), BookSpec.RemoveAt(h.queues[p], k))
      && AtLevel(BookSpec.RemoveAt(h.queues[p], k), side, p)
  {
    LevelSlots(mem, free, index, side, h, other, p);
    var id := h.queues[p][k].id;
    assert index[id] == h.slots[p][k];
    RemoveKeepsElsewhere(mem, mem', index, side, p, h.slots[p], k, id, n);
    RemoveFits(mem, mem', index, h, p, k, level, n);
  }

  lemma RemoveHalves(mem: seq<Node>, mem': seq<Node>, free: seq<u32>, index: Index, side: Side, h: Half, other: Half,
                     p: i64, k: nat, level: PriceLevel, n: Node)
    requires RepBody(mem, free, index, side, h, other) && Unlinked(mem, mem', h, p, k, level)
    ensures var mem2, index2 := mem'[h.slots[p][k] := n], index - {h.queues[p][k].id};
      && HalfOk(mem2, index2, PutLevel(h, p, level, Without(h.slots[p], k), BookSpec.RemoveAt(h.queues[p], k)))
      && HalfOk(mem2, index2, other)
  {
    RemoveLevel(mem, mem', free, index, side, h, other, p, k, level, n);
    var mem2, index2 := mem'[h.slots[p][k] := n], index - {h.queues[p][k].id};
    var slots, orders := Without(h.slots[p], k), BookSpec.RemoveAt(h.queues[p], k);
    HalfUpdated(mem, index, mem2, index2, side, p, h, level, slots, orders);
    HalfKept(mem, index, mem2, index2, side, p, other);
  }

  lemma RemoveRep(mem: seq<Node>, mem': seq<Node>, free: seq<u32>, index: Index, side: Side, h: Half, other: Half,
                  p: i64, k: nat, level: PriceLevel, next: u32)
    requires RepBody(mem, free, index, side, h, other) && Unlinked(mem, mem', h, p, k, level)
    ensures var s := h.slots[p][k];
      RepBody(mem'[s := mem'[s].(next := next)], [s] + free, index - {h.queues[p][k].id}, side,
            PutLevel(h, p, level, Without(h.slots[p], k), BookSpec.RemoveAt(h.queues[p], k)), other)
  {
    var s, slots, orders := h.slots[p][k], Without(h.slots[p], k), BookSpec.RemoveAt(h.queues[p], k);
    var id, n := h.queues[p][k].id, mem'[s].(next := next);
    RemoveHalves(mem, mem', free, index, side, h, other, p, k, level, n);
    RemoveLevel(mem, mem', free, index, side, h, other, p, k, level, n);
    WfUpdated(side, p, h, level, slots, orders);
    RemoveIndex(mem, mem', free, index, side, h, other, p, k, level, n);
    LevelSlots(mem, free, index, side, h, other, p);
    RemoveFrees(mem, mem'[s := n], free, index, s, id);
  }

  lemma RemoveIndex(mem: seq<Node>, mem': seq<Node>, free: seq<u32>, index: Index, side: Side, h: Half, other: Half,
                    p: i64, k: nat, level: PriceLevel, n: Node)
    requires RepBody(mem, free, index, side, h, other) && Unlinked(mem, mem', h, p, k, level)
    ensures IndexOk(mem'[h.slots[p][k] := n], index - {h.queues[p][k].id}, side,
                    PutLevel(h, p, level, Without(h.slots[p], k), BookSpec.RemoveAt(h.queues[p], k)), other)
  {
    var slots, orders := Without(h.slots[p], k), BookSpec.RemoveAt(h.queues[p], k);
    RemoveLevel(mem, mem', free, index, side, h, other, p, k, level, n);
    RemoveCovers(mem, index, side, h, other, p, k, orders);
    IndexUpdated(mem, index, mem'[h.slots[p][k] := n], index - {h.queues[p][k].id}, side, p, h, other,
                 level, slots, orders);
  }

  /** An id left in the index is elsewhere, or still in the shortened queue. */
  lemma RemoveCovers(mem: seq<Node>, index: Index, side: Side, h: Half, other: Half, p: i64, k: nat, orders: seq<Order>)
    requires IndexOk(mem, index, side, h, other)
    requires p in h.slots && p in h.queues && p in h.levels && k < |h.slots[p]|
    requires LevelFits(mem, index, h.levels[p], h.slots[p], h.queues[p])
    requires orders == BookSpec.RemoveAt(h.queues[p], k)
    ensures forall id :: id in index && id != h.queues[p][k].id ==>
      Elsewhere(mem[index[id]], side, p) || (exists i :: 0 <= i < |orders| && orders[i].id == id)
  {
    forall id | id in index && id != h.queues[p][k].id && !Elsewhere(mem[index[id]], side, p)
      ensures exists i :: 0 <= i < |orders| && orders[i].id == id
    {
      assert Resides(mem[index[id]], index[id], side, h, other);
      var j :| 0 <= j < |h.slots[p]| && h.slots[p][j] == index[id];
      assert h.queues[p][j] == ToOrder(mem[index[id]]);
      assert orders[if j < k then j else j - 1].id == id;
    }
  }

  lemma RemoveFrees(mem: seq<Node>, mem': seq<Node>, free: seq<u32>, index: Index, s: u32, id: u64)
    requires FreeOk(mem, index, free) && id in index && index[id] == s && s < |mem| && mem[s].id == id
    requires |mem'| == |mem| && forall x :: 0 <= x < |mem| ==> mem'[x].id == mem[x].id
    requires forall x :: x in index ==> index[x] < |mem| && mem[index[x]].id == x
    ensures FreeOk(mem', index - {id}, [s] + free)
  {
  }

  /** Taking the first free slot for a new order and linking it behind its level. */
  ghost predicate Appended(mem: seq<Node>, mem': seq<Node>, free: seq<u32>, h: Half, o: Order, level: PriceLevel) {
    && free != [] && NoDup(free) && free[0] < |mem|
    && OnlyLinks(mem[free[0] := FromOrder(o)], mem', SlotsAt(h, o.price) + [free[0]])
    && Linked(mem', level, SlotsAt(h, o.price) + [free[0]])
    && level.qty == WrapAdd(LevelAt(h, o.price).qty, o.quantity)
  }

  lemma InsertHalves(mem: seq<Node>, mem': seq<Node>, free: seq<u32>, index: Index, side: Side, h: Half, other: Half,
                     o: Order, level: PriceLevel)
    requires RepBody(mem, free, index, side, h, other) && o.side == side && o.id !in index
    requires Appended(mem, mem', free, h, o, level)
    ensures var slots, orders := SlotsAt(h, o.price) + [free[0]], OrdersAt(h, o.price) + [o];
      var index' := index[o.id := free[0]];
      && KeepsElsewhere(mem, index, mem', index', side, o.price)
      && LevelFits(mem', index', level, slots, orders) && AtLevel(orders, side, o.price)
      && HalfOk(mem', index', PutLevel(h, o.price, level, slots, orders)) && HalfOk(mem', index', other)
  {
    var p, s, mem1, index' := o.price, free[0], mem[free[0] := FromOrder(o)], index[o.id := free[0]];
    var slots, orders := SlotsAt(h, p), OrdersAt(h, p);
    LevelAtFits(mem, free, index, side, h, other, p);
    assert s in free;
    LevelIgnores(mem, s, FromOrder(o), LevelAt(h, p), slots, orders);
    LevelAppended(mem1, mem', LevelAt(h, p), level, slots, orders, s, o);
    IndexedAppended(index, slots, orders, s, o);
    InsertKeepsElsewhere(mem, mem', free, index, side, p, slots, o);
    HalfUpdated(mem, index, mem', index', side, p, h, level, slots + [s], orders + [o]);
    HalfKept(mem, index, mem', index', side, p, other);
  }

  lemma InsertRep(mem: seq<Node>, mem': seq<Node>, free: seq<u32>, index: Index, side: Side, h: Half, other: Half,
                  o: Order, level: PriceLevel)
    requires RepBody(mem, free, index, side, h, other) && o.side == side && o.id !in index
    requires Appended(mem, mem', free, h, o, level)
    ensures RepBody(mem', free[1..], index[o.id := free[0]], side,
                  PutLevel(h, o.price, level, SlotsAt(h, o.price) + [free[0]], OrdersAt(h, o.price) + [o]), other)
  {
    var slots, orders := SlotsAt(h, o.price) + [free[0]], OrdersAt(h, o.price) + [o];
    InsertHalves(mem, mem', free, index, side, h, other, o, level);
    WfUpdated(side, o.price, h, level, slots, orders);
    LevelAtFits(mem, free, index, side, h, other, o.price);
    InsertCovers(mem, index, side, h, other, o);
    IndexUpdated(mem, index, mem', index[o.id := free[0]], side, o.price, h, other, level, slots, orders);
    InsertFrees(mem, mem', free, index, o);
  }

  ghost function SlotsAt(h: Half, p: i64): seq<u32> { if p in h.slots then h.slots[p] else [] }

  ghost function OrdersAt(h: Half, p: i64): seq<Order> { if p in h.queues then h.queues[p] else [] }

  ghost function LevelAt(h: Half, p: i64): PriceLevel { if p in h.levels then h.levels[p] else EMPTY_LEVEL }

  lemma LevelAtFits(mem: seq<Node>, free: seq<u32>, index: Index, side: Side, h: Half, other: Half, p: i64)
    requires RepBody(mem, free, index, side, h, other)
    ensures LevelFits(mem, index, LevelAt(h, p), SlotsAt(h, p), OrdersAt(h, p)) && AtLevel(OrdersAt(h, p), side, p)
    ensures forall s :: s in SlotsAt(h, p) ==> s < |mem| && !Elsewhere(mem[s], side, p) && s !in free
  {
    if p in h.queues {
      LevelSlots(mem, free, index, side, h, other, p);
    }
  }

  lemma IndexedAppended(index: Index, slots: seq<u32>, orders: seq<Order>, s: u32, o: Order)
    requires Indexed(index, slots, orders) && o.id !in index
    ensures Indexed(index[o.id := s], slots + [s], orders + [o])
  {
  }

  lemma InsertKeepsElsewhere(mem: seq<Node>, mem': seq<Node>, free: seq<u32>, index: Index, side: Side, p: i64,
                             slots: seq<u32>, o: Order)
    requires FreeOk(mem, index, free) && free != [] && free[0] < |mem| && o.id !in index
    requires OnlyLinks(mem[free[0] := FromOrder(o)], mem', slots + [free[0]])
    requires forall s :: s in slots ==> s < |mem| && !Elsewhere(mem[s], side, p)
    ensures KeepsElsewhere(mem, index, mem', index[o.id := free[0]], side, p)
  {
  }

  lemma InsertCovers(mem: seq<Node>, index: Index, side: Side, h: Half, other: Half, o: Order)
    requires IndexOk(mem, index, side, h, other) && h.slots.Keys == h.queues.Keys
    requires h.levels.Keys == h.queues.Keys
    requires LevelFits(mem, index, LevelAt(h, o.price), SlotsAt(h, o.price), OrdersAt(h, o.price))
    ensures var orders := OrdersAt(h, o.price) + [o];
      forall id :: id in index || id == o.id ==>
        || (id in index && Elsewhere(mem[index[id]], side, o.price))
        || (exists i :: 0 <= i < |orders| && orders[i].id == id)
  {
    var orders := OrdersAt(h, o.price) + [o];
    assert orders[|orders| - 1] == o;
    forall id | id in index && !Elsewhere(mem[index[id]], side, o.price)
      ensures exists i :: 0 <= i < |orders| && orders[i].id == id
    {
      assert Resides(mem[index[id]], index[id], side, h, other);
      var j :| 0 <= j < |h.slots[o.price]| && h.slots[o.price][j] == index[id];
      assert h.queues[o.price][j] == ToOrder(mem[index[id]]);
      assert orders[j].id == id;
    }
  }

  lemma InsertFrees(mem: seq<Node>, mem': seq<Node>, free: seq<u32>, index: Index, o: Order)
    requires FreeOk(mem, index, free) && NoDup(free) && free != [] && free[0] < |mem| && o.id !in index
    requires |mem'| == |mem| && forall x :: 0 <= x < |mem| && x != free[0] ==> mem'[x].id == mem[x].id
    requires mem'[free[0]].id == o.id
    ensures FreeOk(mem', index[o.id := free[0]], free[1..])
  {
    var s := free[0];
    assert forall x :: x in free ==> x == s || x in free[1..];
    assert s !in free[1..];
    assert forall x :: x in free[1..] ==> x in free;
    assert s in free;
  }

  lemma PutTwice(h: Half, p: i64, level1: PriceLevel, slots1: seq<u32>, orders1: seq<Order>,
                 level2: PriceLevel, slots2: seq<u32>, orders2: seq<Order>)
    requires orders1 != []
    ensures PutLevel(PutLevel(h, p, level1, slots1, orders1), p, level2, slots2, orders2)
         == PutLevel(h, p, level2, slots2, orders2)
  {
  }

  function BestWith(side: Side, best: Option<i64>, p: i64): Option<i64> {
    Some(if best.None? || Better(side, p, best.value) then p else best.value)
  }

  /** The best price once one level was edited: recomputed only if the level went away. */
  lemma BestAfterPut(side: Side, h: Half, p: i64, level: PriceLevel, slots: seq<u32>, orders: seq<Order>)
    ensures var keys := PutLevel(h, p, level, slots, orders).levels.Keys;
      && (orders == [] ==> keys == h.levels.Keys - {p})
      && (orders != [] && p in h.levels ==> keys == h.levels.Keys)
      && (orders != [] ==> BestPrice(side, keys) == BestWith(side, BestPrice(side, h.levels.Keys), p))
  {
    var keys := PutLevel(h, p, level, slots, orders).levels.Keys;
    if orders != [] {
      assert keys == h.levels.Keys + {p};
    }
  }

  /** A slot unlinked from position k of its level and freed. */
  lemma FreedRep(mem: seq<Node>, mem': seq<Node>, free: seq<u32>, next: u32, index: Index, side: Side, h: Half,
                 other: Half, p: i64, k: nat, level: PriceLevel)
    requires RepBody(mem, free, index, side, h, other) && Holds(mem, h, p, k) && InRange(h.slots[p], |mem|)
    requires FreedFrom(mem, mem', next, h.levels[p], level, h.slots[p], k)
    ensures RepBody(mem', [h.slots[p][k]] + free, index - {h.queues[p][k].id}, side,
                  PutLevel(h, p, level, Without(h.slots[p], k), BookSpec.RemoveAt(h.queues[p], k)), other)
    ensures level.count == |BookSpec.RemoveAt(h.queues[p], k)|
    ensures |index - {h.queues[p][k].id}| == |index| - 1
  {
    RemoveRep(mem, Unlink(mem, h.slots[p], k), free, index, side, h, other, p, k, level, next);
    IndexShrinks(mem, index, h, p, k);
  }

  lemma IndexShrinks(mem: seq<Node>, index: Index, h: Half, p: i64, k: nat)
    requires HalfOk(mem, index, h) && Holds(mem, h, p, k)
    ensures |index - {h.queues[p][k].id}| == |index| - 1
  {
  }

  /** A fill that uses up the front order of a level: reduced to nothing, unlinked, freed. */
  lemma ConsumeRep(mem: seq<Node>, mem': seq<Node>, free: seq<u32>, next: u32, index: Index, side: Side, h: Half,
                   other: Half, p: i64, level: PriceLevel)
    requires RepBody(mem, free, index, side, h, other) && Holds(mem, h, p, 0) && InRange(h.slots[p], |mem|)
    requires var fill := h.queues[p][0].quantity;
      FreedFrom(Reduced(mem, h.slots[p][0], fill), mem', next,
                h.levels[p].(qty := WrapSub(h.levels[p].qty, fill)), level, h.slots[p], 0)
    ensures RepBody(mem', [h.slots[p][0]] + free, index - {h.queues[p][0].id}, side,
                  PutLevel(h, p, level, Without(h.slots[p], 0), h.queues[p][1..]), other)
    ensures level.count == |h.queues[p]| - 1
    ensures |index - {h.queues[p][0].id}| == |index| - 1
  {
    var fill, slots := h.queues[p][0].quantity, h.slots[p];
    var level1, orders1 := h.levels[p].(qty := WrapSub(h.levels[p].qty, fill)), FrontReduced(h.queues[p], fill);
    var mem1, h1 := Reduced(mem, slots[0], fill), PutLevel(h, p, level1, slots, orders1);
    ReduceRep(mem, free, index, side, h, other, p, fill);
    FreedRep(mem1, mem', free, next, index, side, h1, other, p, 0, level);
    assert BookSpec.RemoveAt(orders1, 0) == h.queues[p][1..];
    PutTwice(h, p, level1, slots, orders1, level, Without(slots, 0), h.queues[p][1..]);
  }

  // ----- The invariant as a token
  //
  // The book's methods hand the invariant from one state to the next without looking inside.
  // RepOk says what RepBody says, but its definition is only unfolded where a term
  // `Look(k, ...)` about the same state has been mentioned, which Unseal does.

  ghost predicate Look(k: int, mem: seq<Node>, free: seq<u32>, index: Index, side: Side, mine: Half, other: Half) {
    true
  }

  ghost predicate RepOk(mem: seq<Node>, free: seq<u32>, index: Index, side: Side, mine: Half, other: Half) {
    forall k {:trigger Look(k, mem, free, index, side, mine, other)} ::
      Look(k, mem, free, index, side, mine, other) ==> RepBody(mem, free, index, side, mine, other)
  }

  lemma Unseal(mem: seq<Node>, free: seq<u32>, index: Index, side: Side, mine: Half, other: Half)
    requires RepOk(mem, free, index, side, mine, other)
    ensures RepBody(mem, free, index, side, mine, other)
  {
    assert Look(0, mem, free, index, side, mine, other);
  }

  lemma Flipped(mem: seq<Node>, free: seq<u32>, index: Index, side: Side, mine: Half, other: Half)
    requires RepOk(mem, free, index, side, mine, other)
    ensures RepOk(mem, free, index, side.Opposite(), other, mine)
  {
    Unseal(mem, free, index, side, mine, other);
    RepFlip(mem, free, index, side, mine, other);
  }

  /** What the invariant says about one level, present or not. */
  lemma LevelFacts(mem: seq<Node>, free: seq<u32>, index: Index, side: Side, h: Half, other: Half, p: i64)
    requires RepOk(mem, free, index, side, h, other)
    ensures p in h.levels <==> p in h.queues
    ensures p in h.slots <==> p in h.queues
    ensures p in h.queues ==> h.queues[p] != []
    ensures LevelFits(mem, index, LevelAt(h, p), SlotsAt(h, p), OrdersAt(h, p)) && AtLevel(OrdersAt(h, p), side, p)
    ensures forall i :: 0 <= i < |SlotsAt(h, p)| ==> SlotsAt(h, p)[i] !in free
  {
    Unseal(mem, free, index, side, h, other);
    LevelAtFits(mem, free, index, side, h, other, p);
    assert forall i :: 0 <= i < |SlotsAt(h, p)| ==> SlotsAt(h, p)[i] in SlotsAt(h, p);
  }

  lemma KeysAgree(mem: seq<Node>, free: seq<u32>, index: Index, side: Side, h: Half, other: Half)
    requires RepOk(mem, free, index, side, h, other)
    ensures h.levels.Keys == h.queues.Keys
  {
    Unseal(mem, free, index, side, h, other);
  }

  /** What the invariant says about one side as a whole. */
  lemma SideFacts(mem: seq<Node>, free: seq<u32>, index: Index, side: Side, h: Half, other: Half)
    requires RepOk(mem, free, index, side, h, other)
    ensures h.levels.Keys == h.queues.Keys && WfQueues(side, h.queues) && DistinctQueues(h.queues)
    ensures forall p, i :: p in h.queues && 0 <= i < |h.queues[p]| ==> h.queues[p][i].id in index
  {
    Unseal(mem, free, index, side, h, other);
    SlotsDetermineOrders(mem, index, side, h);
    forall p, i | p in h.queues && 0 <= i < |h.queues[p]| ensures h.queues[p][i].id in index {
      assert LevelFits(mem, index, h.levels[p], h.slots[p], h.queues[p]);
    }
  }

  /** Where an indexed order sits: its level exists and its list holds it. */
  lemma IndexFacts(mem: seq<Node>, free: seq<u32>, index: Index, side: Side, mine: Half, other: Half, id: u64)
    returns (k: nat)
    requires RepOk(mem, free, index, side, mine, other) && id in index
    ensures index[id] < |mem| && mem[index[id]].id == id
    ensures var n := mem[index[id]];
      var h := if n.side == side then mine else other;
      && n.price in h.levels && n.price in h.slots && n.price in h.queues
      && |h.slots[n.price]| == |h.queues[n.price]| && k < |h.slots[n.price]|
      && h.slots[n.price][k] == index[id] && h.queues[n.price][k] == ToOrder(n)
  {
    Unseal(mem, free, index, side, mine, other);
    var n := mem[index[id]];
    assert Resides(n, index[id], side, mine, other);
    var h := if n.side == side then mine else other;
    assert LevelFits(mem, index, h.levels[n.price], h.slots[n.price], h.queues[n.price]);
    k :| 0 <= k < |h.slots[n.price]| && h.slots[n.price][k] == index[id];
    assert h.queues[n.price][k] == ToOrder(mem[h.slots[n.price][k]]);
  }

  lemma InsertedRep(mem: seq<Node>, mem': seq<Node>, free: seq<u32>, index: Index, side: Side, h: Half, other: Half,
                    o: Order, level: PriceLevel)
    requires RepOk(mem, free, index, side, h, other) && o.side == side && o.id !in index
    requires Appended(mem, mem', free, h, o, level)
    ensures RepOk(mem', free[1..], index[o.id := free[0]], side,
                  PutLevel(h, o.price, level, SlotsAt(h, o.price) + [free[0]], OrdersAt(h, o.price) + [o]), other)
  {
    Unseal(mem, free, index, side, h, other);
    InsertRep(mem, mem', free, index, side, h, other, o, level);
  }

  lemma ReducedRep(mem: seq<Node>, free: seq<u32>, index: Index, side: Side, h: Half, other: Half, p: i64, fill: u64)
    requires RepOk(mem, free, index, side, h, other) && Holds(mem, h, p, 0) && fill <= h.queues[p][0].quantity
    ensures RepOk(Reduced(mem, h.slots[p][0], fill), free, index, side,
                  PutLevel(h, p, h.levels[p].(qty := WrapSub(h.levels[p].qty, fill)), h.slots[p],
                           FrontReduced(h.queues[p], fill)), other)
  {
    Unseal(mem, free, index, side, h, other);
    ReduceRep(mem, free, index, side, h, other, p, fill);
  }

  lemma CancelledRep(mem: seq<Node>, mem': seq<Node>, free: seq<u32>, next: u32, index: Index, side: Side, h: Half,
                     other: Half, p: i64, k: nat, level: PriceLevel)
    requires RepOk(mem, free, index, side, h, other) && Holds(mem, h, p, k) && InRange(h.slots[p], |mem|)
    requires FreedFrom(mem, mem', next, h.levels[p], level, h.slots[p], k)
    ensures RepOk(mem', [h.slots[p][k]] + free, index - {h.queues[p][k].id}, side,
                  PutLevel(h, p, level, Without(h.slots[p], k), BookSpec.RemoveAt(h.queues[p], k)), other)
    ensures level.count == |BookSpec.RemoveAt(h.queues[p], k)|
    ensures |index - {h.queues[p][k].id}| == |index| - 1
  {
    Unseal(mem, free, index, side, h, other);
    FreedRep(mem, mem', free, next, index, side, h, other, p, k, level);
  }

  lemma ConsumedRep(mem: seq<Node>, mem': seq<Node>, free: seq<u32>, next: u32, index: Index, side: Side, h: Half,
                    other: Half, p: i64, level: PriceLevel)
    requires RepOk(mem, free, index, side, h, other) && Holds(mem, h, p, 0) && InRange(h.slots[p], |mem|)
    requires var fill := h.queues[p][0].quantity;
      FreedFrom(Reduced(mem, h.slots[p][0], fill), mem', next,
                h.levels[p].(qty := WrapSub(h.levels[p].qty, fill)), level, h.slots[p], 0)
    ensures RepOk(mem', [h.slots[p][0]] + free, index - {h.queues[p][0].id}, side,
                  PutLevel(h, p, level, Without(h.slots[p], 0), h.queues[p][1..]), other)
    ensures level.count == |h.queues[p]| - 1
    ensures |index - {h.queues[p][0].id}| == |index| - 1
  {
    Unseal(mem, free, index, side, h, other);
    ConsumeRep(mem, mem', free, next, index, side, h, other, p, level);
  }

  /** No id rests on both sides. */
  lemma SidesApart(mem: seq<Node>, free: seq<u32>, index: Index, side: Side, mine: Half, other: Half)
    requires RepOk(mem, free, index, side, mine, other)
    ensures ApartIds(mine.queues, other.queues)
  {
    Unseal(mem, free, index, side, mine, other);
    var m: Queues, o: Queues := mine.queues, other.queues;
    forall p, i, q, j | p in m && 0 <= i < |m[p]| && q in o && 0 <= j < |o[q]| ensures m[p][i].id != o[q][j].id {
      assert LevelFits(mem, index, mine.levels[p], mine.slots[p], m[p]);
      assert LevelFits(mem, index, other.levels[q], other.slots[q], o[q]);
      assert m[p][i] == ToOrder(mem[mine.slots[p][i]]) && o[q][j] == ToOrder(mem[other.slots[q][j]]);
    }
  }

  /** The index knows exactly the resting ids. */
  lemma IndexKnows(mem: seq<Node>, free: seq<u32>, index: Index, side: Side, mine: Half, other: Half, id: u64)
    requires RepOk(mem, free, index, side, mine, other)
    ensures id in index <==> QueuesHold(mine.queues, id) || QueuesHold(other.queues, id)
  {
    SideFacts(mem, free, index, side, mine, other);
    Flipped(mem, free, index, side, mine, other);
    SideFacts(mem, free, index, side.Opposite(), other, mine);
    if id in index {
      var k := IndexFacts(mem, free, index, side, mine, other, id);
      var n := mem[index[id]];
      assert (if n.side == side then mine else other).queues[n.price][k].id == id;
    }
  }

  /** Free slots and resting orders share out the arena: each slot is one or the other, never both. */
  lemma Partition(mem: seq<Node>, free: seq<u32>, index: Index, side: Side, mine: Half, other: Half, s: u32)
    requires RepOk(mem, free, index, side, mine, other) && s < |mem|
    ensures s in free <==> !exists id :: id in index && index[id] == s
    ensures forall id, id' :: id in index && id' in index && index[id] == index[id'] ==> id == id'
  {
    Unseal(mem, free, index, side, mine, other);
    if s !in free {
      assert mem[s].id in index && index[mem[s].id] == s;
    }
    forall id, id' | id in index && id' in index && index[id] == index[id'] ensures id == id' {
      assert mem[index[id]].id == id && mem[index[id']].id == id';
    }
  }
}
